/** The older copies in utils/helpers.py: `extract_paraphrase_sentences`
    loops over `range(1, sentence_count)`, always looks for the next marker
    and neither checks the first character nor strips; `parse_AI_response`
    has no empty-prompt check. Its `highlight_corrections` is the same code
    as `TextHelpers.HighlightCorrections`. */
module LegacyHelpers {
  import opened Python
  import opened PyStr
  import TextHelpers

  // ---------------------------------------------------------------------------
  // extract_paraphrase_sentences(results, sentence_count=6)

  /** Item i as the loop body cuts it: from three characters after the first
      "i." up to the first "{i+1}.", whose absence (-1) cuts off the last
      character instead of running to the end. */
  function LegacyItem(results: string, i: nat): string {
    var findFirst := Find(results, TextHelpers.Marker(i));
    var findNext := Find(results, TextHelpers.Marker(i + 1));
    Slice(results, findFirst + 3, Some(findNext))
  }

  /** Items 1..sentenceCount-1, in order. */
  function LegacyItems(results: string, sentenceCount: int): (r: seq<string>)
    ensures |r| == if sentenceCount <= 1 then 0 else sentenceCount - 1
  {
    if sentenceCount <= 1 then []
    else LegacyItems(results, sentenceCount - 1) + [LegacyItem(results, sentenceCount - 1)]
  }

  /** Element j of the list is item j+1. */
  lemma {:induction false} LegacyItemsAt(results: string, sentenceCount: int, j: nat)
    requires j + 1 < sentenceCount
    ensures LegacyItems(results, sentenceCount)[j] == LegacyItem(results, j + 1)
  {
    var prefix := LegacyItems(results, sentenceCount - 1);
    var last := LegacyItem(results, sentenceCount - 1);
    assert LegacyItems(results, sentenceCount) == prefix + [last];
    if j + 2 < sentenceCount {
      LegacyItemsAt(results, sentenceCount - 1, j);
      assert (prefix + [last])[j] == prefix[j];
    } else {
      assert (prefix + [last])[j] == last;
    }
  }

  /** `extract_paraphrase_sentences` of utils/helpers.py: never raises. */
  method ExtractParaphraseSentences(results: string, sentenceCount: int) returns (extractedList: seq<string>)
    ensures extractedList == LegacyItems(results, sentenceCount)
  {
    extractedList := [];
    var i := 1;
    while i < sentenceCount
      invariant 1 <= i <= (if sentenceCount <= 1 then 1 else sentenceCount)
      invariant extractedList == LegacyItems(results, i)
    {
      var findFirst := Find(results, TextHelpers.Marker(i));
      var findNext := Find(results, TextHelpers.Marker(i + 1));
      var extract := Slice(results, findFirst + 3, Some(findNext));
      extractedList := extractedList + [extract];
      i := i + 1;
    }
  }

  /** s without its last character ("" stays ""). */
  function DropLast(s: string): string {
    if s == [] then [] else s[..|s| - 1]
  }

  /** A text whose only digits are 1..k lacks '0' and every digit above k. */
  lemma DigitAbsent(text: string, k: nat, c: char)
    requires TextHelpers.DigitsAtMost(text, k)
    requires IsDigit(c) && (c == '0' || c as int - '0' as int > k)
    ensures forall t :: 0 <= t < |text| ==> text[t] != c
  {
  }

  /** The marker after the last one of a list of at most nine items does
      not occur in it: its first digit is too large, or for "10." the '0'
      is missing. */
  lemma NextMarkerAbsent(items: seq<string>)
    requires |items| <= 9 && TextHelpers.PlainItems(items)
    ensures Find(TextHelpers.NumberedList(items), TextHelpers.Marker(|items| + 1)) == -1
  {
    var n := |items|;
    var text := TextHelpers.NumberedList(items);
    TextHelpers.DigitsOfEntries(items, n);
    if n < 9 {
      TextHelpers.MarkerOfDigit(n + 1);
      DigitAbsent(text, n, DigitChar(n + 1));
      FindMissingChar(text, TextHelpers.Marker(n + 1), 0);
    } else {
      assert TextHelpers.Marker(10)[1] == '0';
      DigitAbsent(text, 9, '0');
      FindMissingChar(text, TextHelpers.Marker(10), 1);
    }
  }

  /** Slicing to -1 drops the last character of the tail. */
  lemma SliceToMinusOne(s: string, start: int, tail: string)
    requires 0 <= start <= |s| && s[start..] == tail
    ensures Slice(s, start, Some(-1)) == DropLast(tail)
  {
    if tail != [] {
      assert s[start..|s| - 1] == tail[..|tail| - 1];
    }
  }

  /** An item whose marker is found, with nothing matching the next
      marker, runs to one character before the end. */
  lemma LegacyCutToEnd(text: string, i: nat, start: int, tail: string)
    requires start == Find(text, TextHelpers.Marker(i)) + 3
    requires 0 <= start <= |text| && text[start..] == tail
    requires Find(text, TextHelpers.Marker(i + 1)) == -1
    ensures LegacyItem(text, i) == DropLast(tail)
  {
    SliceToMinusOne(text, start, tail);
  }

  /** With the default `sentence_count = n + 1` on a list of n items, the
      last item loses its last character. */
  lemma LegacyLastItem(items: seq<string>)
    requires 1 <= |items| <= 9 && TextHelpers.PlainItems(items)
    ensures LegacyItem(TextHelpers.NumberedList(items), |items|) == DropLast(items[|items| - 1])
  {
    var k := |items| - 1;
    var text := TextHelpers.NumberedList(items);
    TextHelpers.MarkerPosition(items, k);
    TextHelpers.TextAfterLastMarker(items, k);
    NextMarkerAbsent(items);
    LegacyCutToEnd(text, k + 1, |TextHelpers.EntriesBefore(items, k)| + 3, items[k]);
  }

  /** An item placed between its marker and the next one keeps the space
      that precedes the next marker. */
  lemma LegacyCutBetween(text: string, i: nat, before: string, after: string, item: string)
    requires Find(text, TextHelpers.Marker(i)) == |before| && Find(text, TextHelpers.Marker(i + 1)) == |after|
    requires |before| + 3 <= |after| <= |text| && text[|before| + 3..|after|] == item + " "
    ensures LegacyItem(text, i) == item + " "
  {
  }

  /** An inner item keeps the space that precedes the next marker. */
  lemma LegacyInnerItem(items: seq<string>, k: nat)
    requires k + 1 < |items| <= 9 && TextHelpers.PlainItems(items)
    ensures LegacyItem(TextHelpers.NumberedList(items), k + 1) == items[k] + " "
  {
    TextHelpers.InnerItemBounds(items, k);
    TextHelpers.MarkerOfDigit(k + 1);
    TextHelpers.MarkerOfDigit(k + 2);
    LegacyCutBetween(TextHelpers.NumberedList(items), k + 1, TextHelpers.EntriesBefore(items, k),
                     TextHelpers.EntriesBefore(items, k + 1), items[k]);
  }

  /** On the numbered list of n plain items with `sentence_count = n + 1`
      (the documented "6 means 5 sentences"), the older function returns
      all n items, unstripped: every item but the last keeps its trailing
      space, and the last is cut one character short because "{n+1}." is
      not found. */
  lemma LegacyOfNumberedList(items: seq<string>)
    requires 1 <= |items| <= 9 && TextHelpers.PlainItems(items)
    ensures |LegacyItems(TextHelpers.NumberedList(items), |items| + 1)| == |items|
    ensures forall k :: 0 <= k < |items| - 1 ==>
      LegacyItems(TextHelpers.NumberedList(items), |items| + 1)[k] == items[k] + " "
    ensures LegacyItems(TextHelpers.NumberedList(items), |items| + 1)[|items| - 1] == DropLast(items[|items| - 1])
  {
    var text := TextHelpers.NumberedList(items);
    forall k | 0 <= k < |items| - 1
      ensures LegacyItems(text, |items| + 1)[k] == items[k] + " "
    {
      LegacyItemsAt(text, |items| + 1, k);
      LegacyInnerItem(items, k);
    }
    LegacyItemsAt(text, |items| + 1, |items| - 1);
    LegacyLastItem(items);
  }

  // ---------------------------------------------------------------------------
  // parse_AI_response

  /** What the older `parse_AI_response` returns or raises. The prompt is
      read only for the final replace: `str.replace(None, "")` raises
      TypeError, and an empty prompt removes nothing. */
  function ParseAIResponse(responseText: string, messages: seq<TextHelpers.Message>): (r: Result<string>)
    ensures messages == [] ==> r == Err(IndexError)
    ensures messages != [] && "content" !in messages[0] ==> r == Err(KeyError)
    ensures messages != [] && "content" in messages[0] ==>
      (messages[0]["content"] == None <==> r == Err(TypeError))
  {
    if messages == [] then Err(IndexError)
    else if "content" !in messages[0] then Err(KeyError)
    else
      var content := messages[0]["content"];
      if content.None? then Err(TypeError)
      else Ok(RemoveAll(TextHelpers.CleanedAnswer(responseText), content.value))
  }

  /** For a non-empty prompt both versions give the same answer. */
  lemma ParseAgreesWithCheckedVersion(responseText: string, messages: seq<TextHelpers.Message>)
    requires messages != [] && "content" in messages[0]
    requires messages[0]["content"].Some? && messages[0]["content"].value != []
    ensures ParseAIResponse(responseText, messages) == TextHelpers.ParseAIResponse(responseText, messages)
  {
  }

  /** An empty prompt is accepted and removes nothing: the answer is the
      stripped text after the last "</think>", with the tags removed. */
  lemma ParseEmptyPrompt(responseText: string, messages: seq<TextHelpers.Message>)
    requires messages != [] && "content" in messages[0] && messages[0]["content"] == Some([])
    ensures ParseAIResponse(responseText, messages) == Ok(TextHelpers.CleanedAnswer(responseText))
    ensures TextHelpers.ParseAIResponse(responseText, messages) == Err(ValueError)
  {
  }
}
