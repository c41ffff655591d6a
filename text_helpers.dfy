/** Post-processing of model replies, as in app/utils/text_helpers.py (and
    its character-for-character copy in app/utils/helpers.py):
    `extract_paraphrase_sentences`, `parse_AI_response` and
    `highlight_corrections`. */
module TextHelpers {
  import opened Python
  import opened PyStr

  // ---------------------------------------------------------------------------
  // extract_paraphrase_sentences

  /** `f"{i}."`: the marker that opens item i of a numbered list. */
  function Marker(i: nat): string {
    Decimal(i) + "."
  }

  /** Item i of n as the loop body cuts it: from three characters after the
      first "i." up to the first "{i+1}." (to the end for the last item),
      stripped. */
  function ParaphraseItem(results: string, i: nat, n: int): string {
    var findFirst := Find(results, Marker(i));
    var findNext := if i < n then Some(Find(results, Marker(i + 1))) else None;
    Strip(Slice(results, findFirst + 3, findNext))
  }

  /** Items 1..m of n, in order. */
  function ParaphraseItems(results: string, m: nat, n: int): (r: seq<string>)
    ensures |r| == m
  {
    seq(m, j requires 0 <= j < m => ParaphraseItem(results, j + 1, n))
  }

  /** One more item is one more element at the end. */
  lemma ParaphraseItemsSnoc(results: string, m: nat, n: int)
    ensures ParaphraseItems(results, m + 1, n) == ParaphraseItems(results, m, n) + [ParaphraseItem(results, m + 1, n)]
  {
    var a := ParaphraseItems(results, m + 1, n);
    var b := ParaphraseItems(results, m, n) + [ParaphraseItem(results, m + 1, n)];
    forall j | 0 <= j < m + 1
      ensures a[j] == b[j]
    {
      ParaphraseItemsAt(results, m + 1, n, j);
      if j < m {
        ParaphraseItemsAt(results, m, n, j);
      }
    }
  }

  /** What `extract_paraphrase_sentences(results, num_sentences)` returns or
      raises. `results[0]` is only read once the loop runs. */
  function ExtractedParaphrases(results: string, numSentences: int): (r: Result<seq<string>>)
    ensures numSentences < 1 ==> r == Ok([])
    ensures numSentences >= 1 && results == [] ==> r == Err(IndexError)
    ensures numSentences >= 1 && results != [] && results[0] != '1' ==> r == Err(ValueError)
    ensures numSentences >= 1 && results != [] && results[0] == '1' ==> r.Ok?
    ensures r.Ok? ==> |r.value| == (if numSentences < 1 then 0 else numSentences)
  {
    if numSentences < 1 then Ok([])
    else if results == [] then Err(IndexError)
    else if results[0] != '1' then Err(ValueError)
    else Ok(ParaphraseItems(results, numSentences, numSentences))
  }

  /** `extract_paraphrase_sentences`: the loop that appends one item per
      marker. */
  method ExtractParaphraseSentences(results: string, numSentences: int) returns (r: Result<seq<string>>)
    ensures r == ExtractedParaphrases(results, numSentences)
  {
    var extractedList: seq<string> := [];
    var i := 1;
    while i < numSentences + 1
      invariant 1 <= i <= (if numSentences < 1 then 1 else numSentences + 1)
      invariant i > 1 ==> results != [] && results[0] == '1'
      invariant extractedList == ParaphraseItems(results, i - 1, numSentences)
    {
      if results == [] {
        return Err(IndexError);
      }
      if results[0] != '1' {
        return Err(ValueError);
      }
      var extract := ParaphraseItem(results, i, numSentences);
      ParaphraseItemsSnoc(results, i - 1, numSentences);
      extractedList := extractedList + [extract];
      i := i + 1;
    }
    assert numSentences >= 1 ==> extractedList == ParaphraseItems(results, numSentences, numSentences);
    return Ok(extractedList);
  }

  /** Every extracted item has had its surrounding whitespace stripped. */
  lemma ExtractedItemsStripped(results: string, numSentences: int)
    ensures var r := ExtractedParaphrases(results, numSentences);
      r.Ok? ==> forall k :: 0 <= k < |r.value| ==> IsStripped(r.value[k])
  {
    var r := ExtractedParaphrases(results, numSentences);
    if r.Ok? && numSentences >= 1 {
      forall k | 0 <= k < |r.value|
        ensures IsStripped(r.value[k])
      {
        ParaphraseItemsAt(results, numSentences, numSentences, k);
      }
    }
  }

  // The reply format the paraphrase prompt asks for: "1. s1 2. s2 ... n. sn".

  /** Entry k of the list: "{k+1}. items[k]", after a space unless it is the first. */
  function ListEntry(items: seq<string>, k: nat): string
    requires k < |items|
  {
    (if k == 0 then "" else " ") + Marker(k + 1) + (" " + items[k])
  }

  /** Entries lo..hi-1 of the list, in order. */
  function ListEntries(items: seq<string>, lo: nat, hi: nat): string
    requires lo <= hi <= |items|
    decreases hi
  {
    if hi == lo then [] else ListEntries(items, lo, hi - 1) + ListEntry(items, hi - 1)
  }

  /** The whole numbered list. */
  function NumberedList(items: seq<string>): string {
    ListEntries(items, 0, |items|)
  }

  predicate NoDigit(s: string) {
    forall k :: 0 <= k < |s| ==> !IsDigit(s[k])
  }

  /** Items the round trip holds for: stripped and free of digits, so the
      only digits of the list are the markers themselves. */
  predicate PlainItems(items: seq<string>) {
    forall k :: 0 <= k < |items| ==> IsStripped(items[k]) && NoDigit(items[k])
  }

  lemma {:induction false} ListEntriesSplit(items: seq<string>, a: nat, b: nat, c: nat)
    requires a <= b <= c <= |items|
    ensures ListEntries(items, a, c) == ListEntries(items, a, b) + ListEntries(items, b, c)
    decreases c - b
  {
    if c > b {
      ListEntriesSplit(items, a, b, c - 1);
      Associate(ListEntries(items, a, b), ListEntries(items, b, c - 1), ListEntry(items, c - 1));
    }
  }

  lemma Associate(x: string, y: string, z: string)
    ensures (x + y) + z == x + (y + z)
  {
  }

  lemma MarkerOfDigit(k: nat)
    requires 1 <= k <= 9
    ensures Marker(k) == [DigitChar(k), '.']
  {
  }

  /** The only digits of text are 1..k. */
  predicate DigitsAtMost(text: string, k: nat) {
    forall t :: 0 <= t < |text| && IsDigit(text[t]) ==> '1' <= text[t] && text[t] as int - '0' as int <= k
  }

  lemma DigitsAtMostAppend(a: string, b: string, k: nat)
    requires DigitsAtMost(a, k) && DigitsAtMost(b, k)
    ensures DigitsAtMost(a + b, k)
  {
    forall t | 0 <= t < |a + b| && IsDigit((a + b)[t])
      ensures '1' <= (a + b)[t] && (a + b)[t] as int - '0' as int <= k
    {
      if t < |a| {
        assert (a + b)[t] == a[t];
      } else {
        assert (a + b)[t] == b[t - |a|];
      }
    }
  }

  /** Entry k-1 holds one digit, the k of its marker. */
  lemma DigitsOfEntry(items: seq<string>, k: nat)
    requires 1 <= k <= |items| <= 9 && PlainItems(items)
    ensures DigitsAtMost(ListEntry(items, k - 1), k)
  {
    var sp: string := if k == 1 then "" else " ";
    MarkerOfDigit(k);
    assert DigitsAtMost(sp, k);
    assert DigitsAtMost(Marker(k), k);
    var rest := " " + items[k - 1];
    assert NoDigit(items[k - 1]);
    assert DigitsAtMost(rest, k) by {
      forall t | 0 <= t < |rest|
        ensures !IsDigit(rest[t])
      {
        if t > 0 {
          assert rest[t] == items[k - 1][t - 1];
        }
      }
    }
    DigitsAtMostAppend(sp, Marker(k), k);
    DigitsAtMostAppend(sp + Marker(k), rest, k);
  }

  /** With plain items, the first k entries hold no digit other than 1..k. */
  lemma {:induction false} DigitsOfEntries(items: seq<string>, k: nat)
    requires k <= |items| <= 9 && PlainItems(items)
    ensures DigitsAtMost(ListEntries(items, 0, k), k)
    decreases k
  {
    if k > 0 {
      DigitsOfEntries(items, k - 1);
      DigitsOfEntry(items, k);
      DigitsAtMostAppend(ListEntries(items, 0, k - 1), ListEntry(items, k - 1), k);
    }
  }

  /** The list cut around entry k. */
  lemma ListSplitAt(items: seq<string>, k: nat)
    requires k < |items|
    ensures NumberedList(items)
         == ListEntries(items, 0, k) + (ListEntry(items, k) + ListEntries(items, k + 1, |items|))
  {
    ListEntriesSplit(items, 0, k, |items|);
    ListEntriesSplit(items, k, k + 1, |items|);
    assert ListEntries(items, k, k + 1) == ListEntry(items, k);
  }

  /** The entries before entry k and the space that separates them from it. */
  function EntriesBefore(items: seq<string>, k: nat): string
    requires k <= |items|
  {
    ListEntries(items, 0, k) + (if k == 0 then "" else " ")
  }

  /** The list around entry k: the entries before it, the separating
      space, marker k+1, then the item and the entries after it. */
  lemma ListAroundEntry(items: seq<string>, k: nat)
    requires k < |items|
    ensures NumberedList(items)
         == EntriesBefore(items, k) + Marker(k + 1) + (" " + items[k] + ListEntries(items, k + 1, |items|))
  {
    var sp: string := if k == 0 then "" else " ";
    ListSplitAt(items, k);
    Regroup(ListEntries(items, 0, k), sp, Marker(k + 1), " " + items[k], ListEntries(items, k + 1, |items|));
  }

  lemma Regroup(a: string, b: string, c: string, d: string, e: string)
    ensures a + ((b + c + d) + e) == (a + b) + c + (d + e)
  {
  }

  /** Before entry k, the first character of marker k+1 does not occur. */
  lemma MarkerDigitAbsentBefore(items: seq<string>, k: nat)
    requires k < |items| <= 9 && PlainItems(items)
    ensures forall t :: 0 <= t < |EntriesBefore(items, k)| ==> EntriesBefore(items, k)[t] != Marker(k + 1)[0]
  {
    var sp: string := if k == 0 then "" else " ";
    var entries := ListEntries(items, 0, k);
    DigitsOfEntries(items, k);
    MarkerOfDigit(k + 1);
    DigitsAtMostAppend(entries, sp, k);
    assert DigitsAtMost(EntriesBefore(items, k), k);
  }

  /** Marker k+1 is first found right after the entries before it. */
  lemma MarkerPosition(items: seq<string>, k: nat)
    requires k < |items| <= 9 && PlainItems(items)
    ensures Find(NumberedList(items), Marker(k + 1)) == |EntriesBefore(items, k)|
  {
    ListAroundEntry(items, k);
    MarkerDigitAbsentBefore(items, k);
    FindAfterPrefix(EntriesBefore(items, k), Marker(k + 1), " " + items[k] + ListEntries(items, k + 1, |items|));
  }

  /** Entries 0..k, with entry k spelled out. */
  lemma EntriesThrough(items: seq<string>, k: nat)
    requires k < |items|
    ensures ListEntries(items, 0, k + 1) == EntriesBefore(items, k) + Marker(k + 1) + (" " + items[k])
  {
    var sp: string := if k == 0 then "" else " ";
    assert ListEntry(items, k) == sp + Marker(k + 1) + (" " + items[k]);
    Regroup(ListEntries(items, 0, k), sp, Marker(k + 1), " " + items[k], "");
    assert " " + items[k] + "" == " " + items[k];
  }

  /** Three characters past a two-character marker, up to the space that
      closes the item, lies the item and that space. */
  lemma CutBetween(text: string, before: string, marker: string, item: string, through: string,
                   after: string, next: string, tail: string)
    requires |marker| == 2
    requires through == before + marker + (" " + item)
    requires after == through + " "
    requires text == after + next + tail
    ensures |before| + 3 <= |after| <= |text|
    ensures text[|before| + 3..|after|] == item + " "
  {
    assert text[..|after|] == after;
    assert after[|before| + 3..] == item + " ";
  }

  /** Between marker k+1 and marker k+2 the list holds items[k] and one space. */
  lemma TextBetweenMarkers(items: seq<string>, k: nat)
    requires k + 1 < |items| <= 9
    ensures |EntriesBefore(items, k)| + 3 <= |EntriesBefore(items, k + 1)| <= |NumberedList(items)|
    ensures NumberedList(items)[|EntriesBefore(items, k)| + 3..|EntriesBefore(items, k + 1)|] == items[k] + " "
  {
    var through := ListEntries(items, 0, k + 1);
    ListAroundEntry(items, k + 1);
    EntriesThrough(items, k);
    assert EntriesBefore(items, k + 1) == through + " ";
    MarkerOfDigit(k + 1);
    CutBetween(NumberedList(items), EntriesBefore(items, k), Marker(k + 1), items[k], through,
               EntriesBefore(items, k + 1), Marker(k + 2),
               " " + items[k + 1] + ListEntries(items, k + 2, |items|));
  }

  /** After the last marker the list holds the last item and nothing else. */
  lemma TextAfterLastMarker(items: seq<string>, k: nat)
    requires k + 1 == |items| <= 9
    ensures |EntriesBefore(items, k)| + 3 <= |NumberedList(items)|
    ensures NumberedList(items)[|EntriesBefore(items, k)| + 3..] == items[k]
  {
    var before := EntriesBefore(items, k);
    ListAroundEntry(items, k);
    MarkerOfDigit(k + 1);
    assert ListEntries(items, k + 1, |items|) == [];
    assert NumberedList(items) == before + Marker(k + 1) + (" " + items[k]);
  }

  /** Item i is the stripped text between the two marker positions, so it
      is `item` when that text is `item` padded with whitespace. */
  lemma CutItem(text: string, i: nat, n: int, start: int, stop: Option<int>, item: string, pad: string)
    requires Find(text, Marker(i)) + 3 == start
    requires stop == (if i < n then Some(Find(text, Marker(i + 1))) else None)
    requires Slice(text, start, stop) == item + pad
    requires IsStripped(item) && AllSpace(pad)
    ensures ParaphraseItem(text, i, n) == item
  {
    StripPadded("", item, pad);
    assert "" + item + pad == item + pad;
  }

  /** An item placed between its marker and the next one, followed by one
      space, is cut back to itself. */
  lemma CutInner(text: string, i: nat, n: int, before: string, after: string, item: string)
    requires i < n
    requires Find(text, Marker(i)) == |before| && Find(text, Marker(i + 1)) == |after|
    requires |before| + 3 <= |after| <= |text| && text[|before| + 3..|after|] == item + " "
    requires IsStripped(item)
    ensures ParaphraseItem(text, i, n) == item
  {
    CutItem(text, i, n, |before| + 3, Some(|after|), item, " ");
  }

  /** Where marker k+1 and marker k+2 are found, and what lies between. */
  lemma InnerItemBounds(items: seq<string>, k: nat)
    requires k + 1 < |items| <= 9 && PlainItems(items)
    ensures var text := NumberedList(items);
      var before := EntriesBefore(items, k);
      var after := EntriesBefore(items, k + 1);
      && Find(text, Marker(k + 1)) == |before| && Find(text, Marker(k + 1 + 1)) == |after|
      && |before| + 3 <= |after| <= |text| && text[|before| + 3..|after|] == items[k] + " "
  {
    MarkerOfDigit(k + 1);
    MarkerOfDigit(k + 2);
    MarkerPosition(items, k);
    MarkerPosition(items, k + 1);
    TextBetweenMarkers(items, k);
  }

  /** An inner item is cut from just after its marker up to the next marker. */
  lemma InnerItemOfNumberedList(items: seq<string>, k: nat)
    requires k + 1 < |items| <= 9 && PlainItems(items)
    ensures ParaphraseItem(NumberedList(items), k + 1, |items|) == items[k]
  {
    InnerItemBounds(items, k);
    MarkerOfDigit(k + 1);
    MarkerOfDigit(k + 2);
    assert IsStripped(items[k]);
    CutInner(NumberedList(items), k + 1, |items|, EntriesBefore(items, k), EntriesBefore(items, k + 1), items[k]);
  }

  /** The last item, placed after its marker up to the end, is cut back to
      itself. */
  lemma CutLast(text: string, i: nat, n: int, before: string, item: string)
    requires i >= n
    requires Find(text, Marker(i)) == |before|
    requires |before| + 3 <= |text| && text[|before| + 3..] == item
    requires IsStripped(item)
    ensures ParaphraseItem(text, i, n) == item
  {
    assert item + "" == item;
    CutItem(text, i, n, |before| + 3, None, item, "");
  }

  /** Where the last marker is found, and what follows it. */
  lemma LastItemBounds(items: seq<string>, k: nat)
    requires k + 1 == |items| <= 9 && PlainItems(items)
    ensures var text := NumberedList(items);
      var before := EntriesBefore(items, k);
      && Find(text, Marker(k + 1)) == |before|
      && |before| + 3 <= |text| && text[|before| + 3..] == items[k]
  {
    MarkerOfDigit(k + 1);
    MarkerPosition(items, k);
    TextAfterLastMarker(items, k);
  }

  /** The last item is cut from just after its marker to the end. */
  lemma LastItemOfNumberedList(items: seq<string>, k: nat)
    requires k + 1 == |items| <= 9 && PlainItems(items)
    ensures ParaphraseItem(NumberedList(items), k + 1, |items|) == items[k]
  {
    LastItemBounds(items, k);
    MarkerOfDigit(k + 1);
    assert IsStripped(items[k]);
    CutLast(NumberedList(items), k + 1, |items|, EntriesBefore(items, k), items[k]);
  }

  lemma ParaphraseItemsAt(results: string, m: nat, n: int, k: nat)
    requires k < m
    ensures ParaphraseItems(results, m, n)[k] == ParaphraseItem(results, k + 1, n)
  {
  }

  lemma ItemOfNumberedList(items: seq<string>, k: nat)
    requires k < |items| <= 9 && PlainItems(items)
    ensures ParaphraseItems(NumberedList(items), |items|, |items|)[k] == items[k]
  {
    var text := NumberedList(items);
    var n := |items|;
    ParaphraseItemsAt(text, n, n, k);
    if k + 1 < n {
      InnerItemOfNumberedList(items, k);
    } else {
      LastItemOfNumberedList(items, k);
    }
  }

  lemma ItemsOfNumberedList(items: seq<string>)
    requires |items| <= 9 && PlainItems(items)
    ensures ParaphraseItems(NumberedList(items), |items|, |items|) == items
  {
    var r := ParaphraseItems(NumberedList(items), |items|, |items|);
    forall k | 0 <= k < |items|
      ensures r[k] == items[k]
    {
      ItemOfNumberedList(items, k);
    }
  }

  /** A non-empty list starts with the marker "1.". */
  lemma ListStartsWithOne(items: seq<string>)
    requires 1 <= |items|
    ensures NumberedList(items) != [] && NumberedList(items)[0] == '1'
  {
    ListAroundEntry(items, 0);
    MarkerOfDigit(1);
  }

  /** Round trip: extracting n items from the numbered list of n plain items
      (1 <= n <= 9) gives the items back. */
  lemma NumberedListRoundTrip(items: seq<string>)
    requires 1 <= |items| <= 9 && PlainItems(items)
    ensures ExtractedParaphrases(NumberedList(items), |items|) == Ok(items)
  {
    ListStartsWithOne(items);
    ItemsOfNumberedList(items);
  }

  /** The unit tests' edge cases: zero sentences gives [] even for "", and a
      reply not starting with '1' raises ValueError. */
  lemma ExtractEdgeCases()
    ensures ExtractedParaphrases("", 0) == Ok([])
    ensures ExtractedParaphrases("This is a wrong AI response.", 1) == Err(ValueError)
  {
  }

  /** A one-item list is "1. " followed by the item. */
  lemma SingleItemList(item: string)
    ensures NumberedList([item]) == "1. " + item
  {
    MarkerOfDigit(1);
    assert NumberedList([item]) == "" + Marker(1) + (" " + item);
    assert "" + ['1', '.'] + (" " + item) == "1. " + item;
  }

  /** The unit test's single sentence comes back unchanged. */
  lemma ExtractSingleSentence()
    ensures var item := "This is the single sentence.";
      ExtractedParaphrases("1. " + item, 1) == Ok([item])
  {
    var item := "This is the single sentence.";
    SingleSentenceIsPlain();
    NumberedListRoundTrip([item]);
    SingleItemList(item);
  }

  lemma SingleSentenceIsPlain()
    ensures PlainItems(["This is the single sentence."])
  {
    var item := "This is the single sentence.";
    assert IsStripped(item);
    assert NoDigit(item);
  }

  // ---------------------------------------------------------------------------
  // parse_AI_response

  const ThinkOpen := "<think>"
  const ThinkClose := "</think>"

  /** `"<think>" or "</think>" in response_text`. Python groups it as
      `"<think>" or ("</think>" in response_text)`, and a non-empty string
      literal is true, so the condition holds whatever the text is. */
  function ThinkGuard(responseText: string): (b: bool)
    ensures b
  {
    ThinkOpen != [] || Contains(responseText, ThinkClose)
  }

  /** `response_text.split("</think>")[-1]`: the text after the last
      "</think>", which is all of it when there is none. */
  function AfterLastClose(s: string): (r: string)
    ensures !Contains(r, ThinkClose)
  {
    SplitLast(s, ThinkClose)
  }

  /** The answer as lines 110-120 clean it, before the prompt is deleted:
      the stripped text after the last "</think>", with "<think>" removed,
      stripped, "</think>" removed, and stripped again. The else branch
      (`response_text.strip()`) is kept as written; the guard never lets it run. */
  function CleanedAnswer(responseText: string): (r: string)
    ensures IsStripped(r)
  {
    var finalAnswer :=
      if ThinkGuard(responseText) then Strip(RemoveAll(Strip(AfterLastClose(responseText)), ThinkOpen))
      else Strip(responseText);
    Strip(RemoveAll(finalAnswer, ThinkClose))
  }

  /** One chat message, a dict from keys to values; the value of "content"
      is a string or None. */
  type Message = map<string, Option<string>>

  /** What `parse_AI_response(response_text, messages)` returns or raises. */
  function ParseAIResponse(responseText: string, messages: seq<Message>): (r: Result<string>)
    ensures messages == [] ==> r == Err(IndexError)
    ensures messages != [] && "content" !in messages[0] ==> r == Err(KeyError)
    ensures messages != [] && "content" in messages[0] ==>
      var content := messages[0]["content"];
      (content == None || content == Some([]) ==> r == Err(ValueError))
      && (content.Some? && content.value != [] ==> r.Ok?)
  {
    if messages == [] then Err(IndexError)
    else if "content" !in messages[0] then Err(KeyError)
    else
      var content := messages[0]["content"];
      if content.None? || content.value == [] then Err(ValueError)
      else Ok(RemoveAll(CleanedAnswer(responseText), content.value))
  }

  /** "</think>" cannot overlap itself: its first character '<' appears in
      it only at index 0. */
  lemma CloseTagsDisjoint(s: string, i: int, j: int)
    requires OccursAt(s, ThinkClose, i) && OccursAt(s, ThinkClose, j) && i < j
    ensures i + |ThinkClose| <= j
  {
    CharOfOccurrence(s, ThinkClose, j, 0);
    if j < i + |ThinkClose| {
      CharOfOccurrence(s, ThinkClose, i, j - i);
    }
  }

  /** The first "</think>" of x + "</think>" + y lies in x or is the one
      after x, and in the first case it ends within x. */
  lemma FirstCloseIn(x: string, y: string)
    ensures var s := x + ThinkClose + y; var i := Find(s, ThinkClose);
      0 <= i <= |x| && (i < |x| ==> i + |ThinkClose| <= |x|)
  {
    var s := x + ThinkClose + y;
    assert s[|x|..|x| + |ThinkClose|] == ThinkClose;
    assert OccursAt(s, ThinkClose, |x|);
    var i := Find(s, ThinkClose);
    if 0 <= i < |x| {
      CloseTagsDisjoint(s, i, |x|);
    }
  }

  /** Whatever precedes the last "</think>" is dropped. */
  lemma {:induction false} AfterLastCloseOf(x: string, y: string)
    requires !Contains(y, ThinkClose)
    ensures AfterLastClose(x + ThinkClose + y) == y
    decreases |x|
  {
    var s := x + ThinkClose + y;
    var n := |ThinkClose|;
    FirstCloseIn(x, y);
    var i := Find(s, ThinkClose);
    SplitLastStep(s, ThinkClose);
    if i == |x| {
      assert s[i + n..] == y;
      AfterLastCloseOfPlain(y);
    } else {
      assert s[i + n..] == x[i + n..] + ThinkClose + y;
      AfterLastCloseOf(x[i + n..], y);
    }
  }

  /** Only the text after the last "</think>" decides the answer: the
      thinking section and anything before it are ignored. */
  lemma ParseIgnoresBeforeLastClose(x: string, y: string, messages: seq<Message>)
    requires !Contains(y, ThinkClose)
    ensures ParseAIResponse(x + ThinkClose + y, messages) == ParseAIResponse(y, messages)
  {
    AfterLastCloseOf(x, y);
    assert !Contains(y, ThinkClose) ==> AfterLastClose(y) == y by {
      AfterLastCloseOfPlain(y);
    }
  }

  lemma AfterLastCloseOfPlain(s: string)
    requires !Contains(s, ThinkClose)
    ensures AfterLastClose(s) == s
  {
    SplitOnAbsent(s, ThinkClose);
  }

  /** Every character of the stripped text occurs in the text. */
  lemma StripKeepsChars(s: string, c: char)
    requires forall k :: 0 <= k < |s| ==> s[k] != c
    ensures var t := Strip(s); forall k :: 0 <= k < |t| ==> t[k] != c
  {
    var t := LStrip(s);
    assert forall k :: 0 <= k < |t| ==> t[k] == s[k + LeadingSpaces(s)];
    var r := RStrip(t);
    assert forall k :: 0 <= k < |r| ==> r[k] == t[k];
  }

  /** A reply without any '<' is only stripped. */
  lemma CleanedPlainAnswer(s: string)
    requires forall k :: 0 <= k < |s| ==> s[k] != '<'
    ensures CleanedAnswer(s) == Strip(s)
  {
    FindMissingChar(s, ThinkClose, 0);
    AfterLastCloseOfPlain(s);
    StripKeepsChars(s, '<');
    var t := Strip(s);
    FindMissingChar(t, ThinkOpen, 0);
    FindMissingChar(t, ThinkClose, 0);
    StripIdempotent(s);
  }

  /** The echoed prompt is deleted everywhere: the answer is what lies
      between the occurrences of the prompt in the cleaned reply. */
  lemma ParseRemovesPrompt(responseText: string, messages: seq<Message>)
    requires ParseAIResponse(responseText, messages).Ok?
    ensures var content := messages[0]["content"].value;
      exists pieces: seq<string> ::
        JoinWith(pieces, content) == CleanedAnswer(responseText)
        && Concat(pieces) == ParseAIResponse(responseText, messages).value
        && forall k :: 0 <= k < |pieces| ==> !Contains(pieces[k], content)
  {
    RemoveAllPieces(CleanedAnswer(responseText), messages[0]["content"].value);
  }

  // ---------------------------------------------------------------------------
  // The promise of line 119: an answer without tags

  /** The cleaning of lines 110-120 step by step, for a reply with no
      "</think>": each intermediate text is named. */
  lemma CleanedAnswerSteps(s: string, t: string, c: string)
    requires AfterLastClose(s) == s && Strip(s) == s
    requires RemoveAll(s, ThinkOpen) == t && Strip(t) == t
    requires RemoveAll(t, ThinkClose) == c && Strip(c) == c
    ensures CleanedAnswer(s) == c
  {
  }

  /** What `parse_AI_response` returns once the cleaned reply is known. */
  lemma ParseSteps(responseText: string, messages: seq<Message>, content: string, answer: string)
    requires messages != [] && "content" in messages[0] && messages[0]["content"] == Some(content)
    requires content != [] && RemoveAll(CleanedAnswer(responseText), content) == answer
    ensures ParseAIResponse(responseText, messages) == Ok(answer)
  {
  }

  lemma TrapPieces()
    ensures "</</<think>think>think>" == "</</" + ThinkOpen + "think>think>"
  {
  }

  lemma TrapRestPieces()
    ensures "</</" + "think>think>" == "</" + ThinkClose + "think>"
  {
  }

  lemma CloseTagHalves()
    ensures "</" + "think>" == ThinkClose
    ensures "</th" + "ink>" == ThinkClose
  {
  }

  lemma TrapLacksCloseTag()
    ensures !Contains("</</" + ThinkOpen + "think>think>", ThinkClose)
  {
    var s := "</</" + ThinkOpen + "think>think>";
    forall k | 0 <= k <= |s|
      ensures !OccursAt(s, ThinkClose, k)
    {
      if k == 4 {
        MismatchAt(s, ThinkClose, k, 1);
      } else if k + 2 < |s| {
        MismatchAt(s, ThinkClose, k, if s[k] == '<' then 2 else 0);
      }
    }
  }

  /** Deleting the one "<think>" joins "</" and "think>" into a close tag. */
  lemma TrapOpenRemoved()
    ensures RemoveAll("</</" + ThinkOpen + "think>think>", ThinkOpen) == "</" + ThinkClose + "think>"
  {
    var a := "</</";
    var b := "think>think>";
    forall k | 0 <= k < |a|
      ensures !OccursAt(a + ThinkOpen + b, ThinkOpen, k)
    {
      MismatchAt(a + ThinkOpen + b, ThinkOpen, k, if k % 2 == 0 then 1 else 0);
    }
    FindMissingChar(b, ThinkOpen, 0);
    RemoveSingle(a, ThinkOpen, b);
    TrapRestPieces();
  }

  /** Deleting that close tag joins the rest into another one. */
  lemma TrapCloseRemoved()
    ensures RemoveAll("</" + ThinkClose + "think>", ThinkClose) == ThinkClose
  {
    var a := "</";
    var b := "think>";
    forall k | 0 <= k < |a|
      ensures !OccursAt(a + ThinkClose + b, ThinkClose, k)
    {
      MismatchAt(a + ThinkClose + b, ThinkClose, k, if k == 0 then 2 else 0);
    }
    FindMissingChar(b, ThinkClose, 0);
    RemoveSingle(a, ThinkClose, b);
    CloseTagHalves();
  }

  /** Line 119 promises an answer without tags, but every `replace` is one
      left-to-right pass: deleting "<think>" joins "</" and "think>" into a
      "</think>", and deleting that one joins what is left into another,
      which survives. */
  lemma CloseTagSurvivesCleaning()
    ensures CleanedAnswer("</</<think>think>think>") == ThinkClose
  {
    var u := "</</" + ThinkOpen + "think>think>";
    var t := "</" + ThinkClose + "think>";
    TrapPieces();
    TrapLacksCloseTag();
    SplitOnAbsent(u, ThinkClose);
    StrippedIsFixed(u);
    TrapOpenRemoved();
    StrippedIsFixed(t);
    TrapCloseRemoved();
    StrippedIsFixed(ThinkClose);
    CleanedAnswerSteps(u, t, ThinkClose);
  }

  /** "</thxink>" holds no tag, so the cleaning leaves it alone. */
  lemma NearTagIsClean()
    ensures CleanedAnswer("</th" + "x" + "ink>") == "</th" + "x" + "ink>"
  {
    var r := "</th" + "x" + "ink>";
    forall k | 0 <= k <= |r|
      ensures !OccursAt(r, ThinkClose, k) && !OccursAt(r, ThinkOpen, k)
    {
      if k == 0 {
        MismatchAt(r, ThinkClose, k, 4);
        MismatchAt(r, ThinkOpen, k, 1);
      } else if k < |r| {
        MismatchAt(r, ThinkClose, k, 0);
        MismatchAt(r, ThinkOpen, k, 0);
      }
    }
    SplitOnAbsent(r, ThinkClose);
    StrippedIsFixed(r);
    CleanedAnswerSteps(r, r, r);
  }

  lemma NearTagPieces()
    ensures "</thxink>" == "</th" + "x" + "ink>"
  {
  }

  /** Deleting the "x" joins the two halves of a close tag. */
  lemma PromptXRemoved()
    ensures RemoveAll("</th" + "x" + "ink>", "x") == ThinkClose
  {
    var a := "</th";
    var b := "ink>";
    forall k | 0 <= k < |a|
      ensures !OccursAt(a + "x" + b, "x", k)
    {
      MismatchAt(a + "x" + b, "x", k, 0);
    }
    FindMissingChar(b, "x", 0);
    RemoveSingle(a, "x", b);
    CloseTagHalves();
  }

  /** Deleting the prompt last can build a tag out of the text around it:
      with prompt "x", the reply "</thxink>" becomes "</think>". */
  lemma PromptRemovalBuildsCloseTag()
    ensures ParseAIResponse("</thxink>", [map["content" := Some("x")]]) == Ok(ThinkClose)
  {
    NearTagPieces();
    NearTagIsClean();
    PromptXRemoved();
    ParseSteps("</thxink>", [map["content" := Some("x")]], "x", ThinkClose);
  }

  /** Deletes "<think>" and "</think>" again and again until neither occurs;
      a text without tags is left as it is. */
  function EraseTags(s: string): (r: string)
    ensures !Contains(r, ThinkOpen) && !Contains(r, ThinkClose)
    ensures !Contains(s, ThinkOpen) && !Contains(s, ThinkClose) ==> r == s
    decreases |s|
  {
    if Contains(s, ThinkOpen) then EraseTags(RemoveAll(s, ThinkOpen))
    else if Contains(s, ThinkClose) then EraseTags(RemoveAll(s, ThinkClose))
    else s
  }

  /** `parse_AI_response` as the comment at line 119 intends it: the same
      errors, and an answer from which the tags are deleted until none is
      left. Where the answer as written has no tag, the two agree. */
  function IntendedParseAIResponse(responseText: string, messages: seq<Message>): (r: Result<string>)
    ensures ParseAIResponse(responseText, messages).Err? ==> r == ParseAIResponse(responseText, messages)
    ensures ParseAIResponse(responseText, messages).Ok? <==> r.Ok?
    ensures r.Ok? ==> !Contains(r.value, ThinkOpen) && !Contains(r.value, ThinkClose)
    ensures var written := ParseAIResponse(responseText, messages);
      written.Ok? && !Contains(written.value, ThinkOpen) && !Contains(written.value, ThinkClose) ==> r == written
  {
    match ParseAIResponse(responseText, messages)
    case Err(e) => Err(e)
    case Ok(answer) => Ok(EraseTags(answer))
  }

  /** One round of EraseTags on a text with a close tag but no open tag. */
  lemma EraseTagsStep(s: string)
    requires !Contains(s, ThinkOpen) && Contains(s, ThinkClose)
    ensures EraseTags(s) == EraseTags(RemoveAll(s, ThinkClose))
  {
  }

  lemma CloseTagLacksOpenTag()
    ensures !Contains(ThinkClose, ThinkOpen)
  {
    forall k | 0 <= k <= |ThinkClose|
      ensures !OccursAt(ThinkClose, ThinkOpen, k)
    {
      if k < 2 {
        MismatchAt(ThinkClose, ThinkOpen, k, 1 - k);
      }
    }
  }

  lemma CloseTagRemovesItself()
    ensures Contains(ThinkClose, ThinkClose) && RemoveAll(ThinkClose, ThinkClose) == []
  {
    assert [] + ThinkClose + [] == ThinkClose;
    assert OccursAt(ThinkClose, ThinkClose, 0);
    RemoveSingle([], ThinkClose, []);
  }

  /** A lone close tag is erased completely. */
  lemma EraseCloseTag()
    ensures EraseTags(ThinkClose) == []
  {
    CloseTagLacksOpenTag();
    CloseTagRemovesItself();
    EraseTagsStep(ThinkClose);
  }

  lemma CloseTagKeepsTestPrompt()
    ensures RemoveAll(ThinkClose, "Original message") == ThinkClose
  {
    FindMissingChar(ThinkClose, "Original message", 0);
  }

  /** On the reply that defeats the code as written, the intended parse
      leaves nothing. */
  lemma IntendedParseErasesSurvivingTag()
    ensures IntendedParseAIResponse("</</<think>think>think>", TestMessages) == Ok([])
  {
    CloseTagSurvivesCleaning();
    CloseTagKeepsTestPrompt();
    ParseSteps("</</<think>think>think>", TestMessages, "Original message", ThinkClose);
    EraseCloseTag();
  }

  /** The unit test's prompt message. */
  const TestMessages: seq<Message> := [map["content" := Some("Original message")]]

  /** A reply without any '<' that does not contain the prompt is only
      stripped. */
  lemma ParsePlainAnswer(s: string, messages: seq<Message>)
    requires forall k :: 0 <= k < |s| ==> s[k] != '<'
    requires messages != [] && "content" in messages[0]
    requires messages[0]["content"].Some? && messages[0]["content"].value != []
    requires !Contains(Strip(s), messages[0]["content"].value)
    ensures ParseAIResponse(s, messages) == Ok(Strip(s))
  {
    CleanedPlainAnswer(s);
  }

  const FinalAnswer := "Final answer"

  /** "Final answer", alone or after one space, comes back as it is. */
  lemma ParseFinalAnswer(pre: string)
    requires pre == "" || pre == " "
    ensures ParseAIResponse(pre + FinalAnswer, TestMessages) == Ok(FinalAnswer)
  {
    var s := pre + FinalAnswer;
    assert Strip(s) == FinalAnswer by {
      FinalAnswerIsPlain();
      StripPadded(pre, FinalAnswer, "");
      assert pre + FinalAnswer + "" == s;
    }
    assert forall k :: 0 <= k < |s| ==> s[k] != '<' by {
      FinalAnswerIsPlain();
    }
    assert !Contains(FinalAnswer, "Original message");
    ParsePlainAnswer(s, TestMessages);
  }

  lemma FinalAnswerIsPlain()
    ensures IsStripped(FinalAnswer)
    ensures forall k :: 0 <= k < |FinalAnswer| ==> FinalAnswer[k] != '<'
  {
  }

  /** The unit test with empty prompt content: ValueError. */
  lemma ParseEmptyContentTest()
    ensures ParseAIResponse("any response", [map["content" := Some("")]]) == Err(ValueError)
  {
  }

  lemma FinalTailHasNoClose()
    ensures !Contains(" " + FinalAnswer, ThinkClose)
  {
    var tail := " " + FinalAnswer;
    assert forall k :: 0 <= k < |tail| ==> tail[k] != '<' by {
      FinalAnswerIsPlain();
    }
    FindMissingChar(tail, ThinkClose, 0);
  }

  /** The unit tests with one and with two thinking sections before the
      answer, for any text before the last "</think>": only "Final answer"
      is left. */
  lemma ParseThinkTagsTest(thinking: string)
    ensures ParseAIResponse(thinking + ThinkClose + (" " + FinalAnswer), TestMessages) == Ok(FinalAnswer)
  {
    FinalTailHasNoClose();
    ParseFinalAnswer(" ");
    ParseIgnoresBeforeLastClose(thinking, " " + FinalAnswer, TestMessages);
  }

  // ---------------------------------------------------------------------------
  // highlight_corrections

  /** The four tags of `SequenceMatcher.get_opcodes()`. */
  datatype Tag = Replace | Delete | Insert | Equal

  /** `(tag, i1, i2, j1, j2)`: original words [i1, i2) correspond to
      corrected words [j1, j2). */
  datatype Opcode = Opcode(tag: Tag, i1: int, i2: int, j1: int, j2: int)

  const RedSpan := "<span style='color:#E76047; font-weight:bold;'>"
  const GreenSpan := "<span style='color:#69B23E; font-weight:bold;'>"
  const SpanClose := "</span>"

  /** `" ".join(words[lo:hi])`. */
  function WordsText(words: seq<string>, lo: int, hi: int): string {
    JoinWith(Slice(words, lo, Some(hi)), " ")
  }

  /** An entry of one output list: the text as it is, or the text inside
      that side's coloured span. */
  datatype Piece = Plain(text: string) | Marked(text: string)

  function Render(p: Piece, span: string): string {
    match p
    case Plain(t) => t
    case Marked(t) => span + t + SpanClose
  }

  function RenderAll(pieces: seq<Piece>, span: string): (r: seq<string>)
    ensures |r| == |pieces|
  {
    seq(|pieces|, k requires 0 <= k < |pieces| => Render(pieces[k], span))
  }

  /** The texts of the pieces, without any markup. */
  function Texts(pieces: seq<Piece>): (r: seq<string>)
    ensures |r| == |pieces|
  {
    seq(|pieces|, k requires 0 <= k < |pieces| => pieces[k].text)
  }

  function AsList(p: Option<Piece>): seq<Piece> {
    match p
    case None => []
    case Some(q) => [q]
  }

  /** What one opcode appends to `original_highlighted`. */
  function OriginalPiece(ow: seq<string>, op: Opcode): Option<Piece> {
    match op.tag
    case Replace => Some(Marked(WordsText(ow, op.i1, op.i2)))
    case Delete => Some(Marked(WordsText(ow, op.i1, op.i2)))
    case Insert => None
    case Equal => Some(Plain(WordsText(ow, op.i1, op.i2)))
  }

  /** What one opcode appends to `corrected_highlighted`; an equal block
      takes its text from the original words. */
  function CorrectedPiece(ow: seq<string>, cw: seq<string>, op: Opcode): Option<Piece> {
    match op.tag
    case Replace => Some(Marked(WordsText(cw, op.j1, op.j2)))
    case Delete => None
    case Insert => Some(Marked(WordsText(cw, op.j1, op.j2)))
    case Equal => Some(Plain(WordsText(ow, op.i1, op.i2)))
  }

  /** The original side's entries after the given opcodes, in order. */
  function OriginalPieces(ow: seq<string>, ops: seq<Opcode>): seq<Piece>
    decreases |ops|
  {
    if ops == [] then []
    else OriginalPieces(ow, ops[..|ops| - 1]) + AsList(OriginalPiece(ow, ops[|ops| - 1]))
  }

  /** The corrected side's entries after the given opcodes, in order. */
  function CorrectedPieces(ow: seq<string>, cw: seq<string>, ops: seq<Opcode>): seq<Piece>
    decreases |ops|
  {
    if ops == [] then []
    else CorrectedPieces(ow, cw, ops[..|ops| - 1]) + AsList(CorrectedPiece(ow, cw, ops[|ops| - 1]))
  }

  /** Rendering a list that grows by the pieces of one opcode. */
  lemma RenderAppend(pieces: seq<Piece>, extra: seq<Piece>, span: string)
    ensures RenderAll(pieces + extra, span) == RenderAll(pieces, span) + RenderAll(extra, span)
  {
  }

  /** Opcode k appends its own pieces, rendered, to each side. */
  lemma HighlightStep(ow: seq<string>, cw: seq<string>, ops: seq<Opcode>, k: nat)
    requires k < |ops|
    ensures RenderAll(OriginalPieces(ow, ops[..k + 1]), RedSpan)
      == RenderAll(OriginalPieces(ow, ops[..k]), RedSpan) + RenderAll(AsList(OriginalPiece(ow, ops[k])), RedSpan)
    ensures RenderAll(CorrectedPieces(ow, cw, ops[..k + 1]), GreenSpan)
      == RenderAll(CorrectedPieces(ow, cw, ops[..k]), GreenSpan) + RenderAll(AsList(CorrectedPiece(ow, cw, ops[k])), GreenSpan)
  {
    assert ops[..k + 1][..k] == ops[..k];
    RenderAppend(OriginalPieces(ow, ops[..k]), AsList(OriginalPiece(ow, ops[k])), RedSpan);
    RenderAppend(CorrectedPieces(ow, cw, ops[..k]), AsList(CorrectedPiece(ow, cw, ops[k])), GreenSpan);
  }

  /** The rule per tag: an equal block appends the same unmarked text to
      both sides; delete appends a red entry to the original side only;
      insert a green entry to the corrected side only; replace a red entry
      and a green one. */
  lemma OpcodeEntries(ow: seq<string>, cw: seq<string>, op: Opcode)
    ensures var o := RenderAll(AsList(OriginalPiece(ow, op)), RedSpan);
      var c := RenderAll(AsList(CorrectedPiece(ow, cw, op)), GreenSpan);
      var ot := WordsText(ow, op.i1, op.i2);
      var ct := WordsText(cw, op.j1, op.j2);
      (op.tag == Replace ==> o == [RedSpan + ot + SpanClose] && c == [GreenSpan + ct + SpanClose])
      && (op.tag == Delete ==> o == [RedSpan + ot + SpanClose] && c == [])
      && (op.tag == Insert ==> o == [] && c == [GreenSpan + ct + SpanClose])
      && (op.tag == Equal ==> o == [ot] && c == [ot])
  {
  }

  /** `highlight_corrections(original, corrected)`, with the opcodes that
      `SequenceMatcher(None, original.split(), corrected.split())` produces
      given as a parameter. */
  method HighlightCorrections(original: string, corrected: string, opcodes: seq<Opcode>)
    returns (originalHighlighted: string, correctedHighlighted: string)
    ensures originalHighlighted
      == JoinWith(RenderAll(OriginalPieces(SplitWords(original), opcodes), RedSpan), " ")
    ensures correctedHighlighted
      == JoinWith(RenderAll(CorrectedPieces(SplitWords(original), SplitWords(corrected), opcodes), GreenSpan), " ")
  {
    var ow := SplitWords(original);
    var cw := SplitWords(corrected);
    var originalList: seq<string> := [];
    var correctedList: seq<string> := [];
    for k := 0 to |opcodes|
      invariant originalList == RenderAll(OriginalPieces(ow, opcodes[..k]), RedSpan)
      invariant correctedList == RenderAll(CorrectedPieces(ow, cw, opcodes[..k]), GreenSpan)
    {
      var op := opcodes[k];
      HighlightStep(ow, cw, opcodes, k);
      OpcodeEntries(ow, cw, op);
      match op.tag {
        case Replace =>
          var originalText := JoinWith(Slice(ow, op.i1, Some(op.i2)), " ");
          var correctedText := JoinWith(Slice(cw, op.j1, Some(op.j2)), " ");
          originalList := originalList + [RedSpan + originalText + SpanClose];
          correctedList := correctedList + [GreenSpan + correctedText + SpanClose];
        case Delete =>
          var originalText := JoinWith(Slice(ow, op.i1, Some(op.i2)), " ");
          originalList := originalList + [RedSpan + originalText + SpanClose];
        case Insert =>
          var correctedText := JoinWith(Slice(cw, op.j1, Some(op.j2)), " ");
          correctedList := correctedList + [GreenSpan + correctedText + SpanClose];
        case Equal =>
          var unchangedText := JoinWith(Slice(ow, op.i1, Some(op.i2)), " ");
          originalList := originalList + [unchangedText];
          correctedList := correctedList + [unchangedText];
      }
    }
    assert opcodes[..|opcodes|] == opcodes;
    originalHighlighted := JoinWith(originalList, " ");
    correctedHighlighted := JoinWith(correctedList, " ");
  }

  /** The number of opcodes whose tag is one of tags. */
  function CountTags(ops: seq<Opcode>, tags: set<Tag>): nat
    decreases |ops|
  {
    if ops == [] then 0
    else CountTags(ops[..|ops| - 1], tags) + (if ops[|ops| - 1].tag in tags then 1 else 0)
  }

  lemma OpcodeEntryCounts(ow: seq<string>, cw: seq<string>, op: Opcode)
    ensures |AsList(OriginalPiece(ow, op))| == if op.tag in {Replace, Delete, Equal} then 1 else 0
    ensures |AsList(CorrectedPiece(ow, cw, op))| == if op.tag in {Replace, Insert, Equal} then 1 else 0
  {
  }

  /** One original-side entry per replace, delete and equal opcode. */
  lemma {:induction false} OriginalEntryCount(ow: seq<string>, ops: seq<Opcode>)
    ensures |OriginalPieces(ow, ops)| == CountTags(ops, {Replace, Delete, Equal})
    decreases |ops|
  {
    if ops != [] {
      OriginalEntryCount(ow, ops[..|ops| - 1]);
      OpcodeEntryCounts(ow, [], ops[|ops| - 1]);
    }
  }

  /** One corrected-side entry per replace, insert and equal opcode. */
  lemma {:induction false} CorrectedEntryCount(ow: seq<string>, cw: seq<string>, ops: seq<Opcode>)
    ensures |CorrectedPieces(ow, cw, ops)| == CountTags(ops, {Replace, Insert, Equal})
    decreases |ops|
  {
    if ops != [] {
      CorrectedEntryCount(ow, cw, ops[..|ops| - 1]);
      OpcodeEntryCounts(ow, cw, ops[|ops| - 1]);
    }
  }

  /** One entry per replace, delete and equal opcode on the original side,
      and one per replace, insert and equal opcode on the corrected side. */
  lemma HighlightEntryCounts(ow: seq<string>, cw: seq<string>, ops: seq<Opcode>)
    ensures |OriginalPieces(ow, ops)| == CountTags(ops, {Replace, Delete, Equal})
    ensures |CorrectedPieces(ow, cw, ops)| == CountTags(ops, {Replace, Insert, Equal})
  {
    OriginalEntryCount(ow, ops);
    CorrectedEntryCount(ow, cw, ops);
  }

  /** An opcode as difflib emits it: within both word lists, non-empty on
      the sides its tag touches, and an equal block holds identical words. */
  predicate ValidBlock(ow: seq<string>, cw: seq<string>, op: Opcode) {
    0 <= op.i1 <= op.i2 <= |ow| && 0 <= op.j1 <= op.j2 <= |cw|
    && match op.tag
       case Replace => op.i1 < op.i2 && op.j1 < op.j2
       case Delete => op.i1 < op.i2 && op.j1 == op.j2
       case Insert => op.i1 == op.i2 && op.j1 < op.j2
       case Equal => op.i1 < op.i2 && ow[op.i1..op.i2] == cw[op.j1..op.j2]
  }

  /** The opcodes cover ow[..i] and cw[..j] block after block, in order. */
  predicate CoversUpTo(ow: seq<string>, cw: seq<string>, ops: seq<Opcode>, i: int, j: int)
    decreases |ops|
  {
    if ops == [] then i == 0 && j == 0
    else
      var op := ops[|ops| - 1];
      ValidBlock(ow, cw, op) && op.i2 == i && op.j2 == j && CoversUpTo(ow, cw, ops[..|ops| - 1], op.i1, op.j1)
  }

  /** The opcodes describe the whole of both word lists. */
  predicate WellFormedOpcodes(ow: seq<string>, cw: seq<string>, ops: seq<Opcode>) {
    CoversUpTo(ow, cw, ops, |ow|, |cw|)
  }

  lemma TextsAppend(pieces: seq<Piece>, extra: seq<Piece>)
    ensures Texts(pieces + extra) == Texts(pieces) + Texts(extra)
  {
  }

  /** Two adjacent non-empty blocks of words joined with a space are the
      joined union of the blocks. */
  lemma JoinBlocks(words: seq<string>, a: int, b: int)
    requires 0 < a < b <= |words|
    ensures JoinWith(words[..a], " ") + " " + JoinWith(words[a..b], " ") == JoinWith(words[..b], " ")
  {
    JoinWithAppend(words[..a], words[a..b], " ");
    assert words[..a] + words[a..b] == words[..b];
  }

  /** One block of text after the earlier ones: the joined words grow from
      ow[..i1] to ow[..i2]. */
  lemma ExtendJoined(prev: seq<string>, words: seq<string>, i1: int, i2: int)
    requires 0 <= i1 < i2 <= |words|
    requires (prev == []) == (i1 == 0)
    requires JoinWith(prev, " ") == JoinWith(words[..i1], " ")
    ensures JoinWith(prev + [JoinWith(words[i1..i2], " ")], " ") == JoinWith(words[..i2], " ")
  {
    var t := JoinWith(words[i1..i2], " ");
    if prev == [] {
      assert prev + [t] == [t];
      assert words[..i2] == words[i1..i2];
    } else {
      JoinWithAppend(prev, [t], " ");
      JoinBlocks(words, i1, i2);
    }
  }

  lemma {:induction false} OriginalWordsKept(ow: seq<string>, cw: seq<string>, ops: seq<Opcode>, i: int, j: int)
    requires CoversUpTo(ow, cw, ops, i, j)
    ensures 0 <= i <= |ow|
    ensures (OriginalPieces(ow, ops) == []) == (i == 0)
    ensures JoinWith(Texts(OriginalPieces(ow, ops)), " ") == JoinWith(ow[..i], " ")
    decreases |ops|
  {
    if ops == [] {
      assert ow[..i] == [];
    } else {
      var init := ops[..|ops| - 1];
      var op := ops[|ops| - 1];
      OriginalWordsKept(ow, cw, init, op.i1, op.j1);
      var prev := OriginalPieces(ow, init);
      var added := AsList(OriginalPiece(ow, op));
      TextsAppend(prev, added);
      assert OriginalPieces(ow, ops) == prev + added;
      if op.tag == Insert {
        assert prev + added == prev;
      } else {
        var t := WordsText(ow, op.i1, op.i2);
        assert t == JoinWith(ow[op.i1..op.i2], " ");
        assert Texts(added) == [t];
        ExtendJoined(Texts(prev), ow, op.i1, op.i2);
      }
    }
  }

  lemma {:induction false} CorrectedWordsKept(ow: seq<string>, cw: seq<string>, ops: seq<Opcode>, i: int, j: int)
    requires CoversUpTo(ow, cw, ops, i, j)
    ensures 0 <= j <= |cw|
    ensures (CorrectedPieces(ow, cw, ops) == []) == (j == 0)
    ensures JoinWith(Texts(CorrectedPieces(ow, cw, ops)), " ") == JoinWith(cw[..j], " ")
    decreases |ops|
  {
    if ops == [] {
      assert cw[..j] == [];
    } else {
      var init := ops[..|ops| - 1];
      var op := ops[|ops| - 1];
      CorrectedWordsKept(ow, cw, init, op.i1, op.j1);
      var prev := CorrectedPieces(ow, cw, init);
      var added := AsList(CorrectedPiece(ow, cw, op));
      TextsAppend(prev, added);
      assert CorrectedPieces(ow, cw, ops) == prev + added;
      if op.tag == Delete {
        assert prev + added == prev;
      } else {
        var t := JoinWith(cw[op.j1..op.j2], " ");
        assert Texts(added) == [t];
        ExtendJoined(Texts(prev), cw, op.j1, op.j2);
      }
    }
  }

  /** Removing the markup gives each text back: the original side holds the
      original words and the corrected side the corrected words, in order,
      each joined by single spaces. */
  lemma HighlightKeepsWords(ow: seq<string>, cw: seq<string>, ops: seq<Opcode>)
    requires WellFormedOpcodes(ow, cw, ops)
    ensures JoinWith(Texts(OriginalPieces(ow, ops)), " ") == JoinWith(ow, " ")
    ensures JoinWith(Texts(CorrectedPieces(ow, cw, ops)), " ") == JoinWith(cw, " ")
  {
    OriginalWordsKept(ow, cw, ops, |ow|, |cw|);
    CorrectedWordsKept(ow, cw, ops, |ow|, |cw|);
    assert ow[..|ow|] == ow;
    assert cw[..|cw|] == cw;
  }

  predicate AllPlain(pieces: seq<Piece>) {
    forall k :: 0 <= k < |pieces| ==> pieces[k].Plain?
  }

  lemma {:induction false} EqualOpsArePlain(ow: seq<string>, cw: seq<string>, ops: seq<Opcode>)
    requires forall k :: 0 <= k < |ops| ==> ops[k].tag == Equal
    ensures AllPlain(OriginalPieces(ow, ops)) && AllPlain(CorrectedPieces(ow, cw, ops))
    decreases |ops|
  {
    if ops != [] {
      var init := ops[..|ops| - 1];
      var op := ops[|ops| - 1];
      EqualOpsArePlain(ow, cw, init);
      var t := WordsText(ow, op.i1, op.i2);
      assert OriginalPieces(ow, ops) == OriginalPieces(ow, init) + [Plain(t)];
      assert CorrectedPieces(ow, cw, ops) == CorrectedPieces(ow, cw, init) + [Plain(t)];
    }
  }

  lemma RenderPlain(pieces: seq<Piece>, span: string)
    requires AllPlain(pieces)
    ensures RenderAll(pieces, span) == Texts(pieces)
  {
  }

  /** When the opcodes report no change, neither output carries any markup:
      both are the words joined by single spaces. */
  lemma UnchangedTextNotHighlighted(ow: seq<string>, cw: seq<string>, ops: seq<Opcode>)
    requires WellFormedOpcodes(ow, cw, ops)
    requires forall k :: 0 <= k < |ops| ==> ops[k].tag == Equal
    ensures JoinWith(RenderAll(OriginalPieces(ow, ops), RedSpan), " ") == JoinWith(ow, " ")
    ensures JoinWith(RenderAll(CorrectedPieces(ow, cw, ops), GreenSpan), " ") == JoinWith(cw, " ")
  {
    EqualOpsArePlain(ow, cw, ops);
    RenderPlain(OriginalPieces(ow, ops), RedSpan);
    RenderPlain(CorrectedPieces(ow, cw, ops), GreenSpan);
    HighlightKeepsWords(ow, cw, ops);
  }
}
