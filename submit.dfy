/**
 * What the two submission forms turn their text into before anything is
 * queued: the single-text form (`home`) refuses blank text, and the batch
 * form (`batch_processing`) cuts its text into items by a delimiter policy.
 */
module Submit {
  import opened Wrappers
  import opened Text

  const EmptyTextMessage := "Please enter some text."
  const ParagraphSeparator := "\n\n"
  const LineSeparator := "\n"
  const DefaultCustomSeparator := "---"
  const DefaultDelimiter := "paragraph"

  datatype HomeOutcome = Rejected(message: string) | Queued(text: string)

  /** `home` on POST: the `lyrics` field (empty when missing) is stripped, and
      is queued only when something is left. */
  function Home(lyrics: Option<string>): (r: HomeOutcome)
    ensures r.Rejected? <==> AllSpace(lyrics.GetOr(""))
    ensures r.Rejected? ==> r.message == EmptyTextMessage
    ensures r.Queued? ==> r.text != "" && r.text == Strip(lyrics.GetOr(""))
  {
    var text := Strip(lyrics.GetOr(""));
    StripEmptyIff(lyrics.GetOr(""));
    if text == "" then Rejected(EmptyTextMessage) else Queued(text)
  }

  /** The separator a `delimiter` choice stands for; `None` keeps the text
      whole. A custom separator is read from its own field, `---` when the
      field is missing. */
  function SeparatorFor(delimiter: string, customDelimiter: Option<string>): Option<string> {
    if delimiter == "paragraph" then Some(ParagraphSeparator)
    else if delimiter == "line" then Some(LineSeparator)
    else if delimiter == "custom" then Some(customDelimiter.GetOr(DefaultCustomSeparator))
    else None
  }

  /** Every piece stripped: `[t.strip() for t in pieces]`. */
  function StripAll(pieces: seq<string>): (r: seq<string>)
    ensures |r| == |pieces| && forall k :: 0 <= k < |r| ==> r[k] == Strip(pieces[k])
  {
    seq(|pieces|, k requires 0 <= k < |pieces| => Strip(pieces[k]))
  }

  /** The non-empty strings of `xs`, in order: `[x for x in xs if x]`. */
  function NonBlank(xs: seq<string>): (ys: seq<string>)
    ensures |ys| <= |xs|
    ensures forall k :: 0 <= k < |ys| ==> ys[k] != "" && ys[k] in xs
  {
    if xs == [] then []
    else (if xs[0] != "" then [xs[0]] else []) + NonBlank(xs[1..])
  }

  /** `[t.strip() for t in pieces if t.strip()]`: each item is one of the
      stripped pieces, so it is non-empty and has no whitespace at either end. */
  function StrippedNonEmpty(pieces: seq<string>): (items: seq<string>)
    ensures |items| <= |pieces|
    ensures forall k :: 0 <= k < |items| ==> items[k] != "" && IsStripped(items[k])
  {
    NonBlank(StripAll(pieces))
  }

  /** `s` lists positions in strictly increasing order. */
  predicate Increasing(s: seq<nat>) {
    forall i, j :: 0 <= i < j < |s| ==> s[i] < s[j]
  }

  function Shift(s: seq<nat>): (r: seq<nat>)
    ensures |r| == |s| && forall k :: 0 <= k < |s| ==> r[k] == s[k] + 1
  {
    seq(|s|, k requires 0 <= k < |s| => s[k] + 1)
  }

  /** The positions of the strings that `NonBlank` keeps. */
  function Kept(xs: seq<string>): seq<nat> {
    if xs == [] then []
    else (if xs[0] != "" then [0] else []) + Shift(Kept(xs[1..]))
  }

  /** One position per kept string, positions of `xs`, in increasing order. */
  lemma {:induction false} KeptPositions(xs: seq<string>)
    ensures |Kept(xs)| == |NonBlank(xs)|
    ensures Increasing(Kept(xs))
    ensures forall k :: 0 <= k < |Kept(xs)| ==> Kept(xs)[k] < |xs|
  {
    if xs != [] {
      KeptPositions(xs[1..]);
    }
  }

  /** The `k`-th kept string is the string at the `k`-th kept position. */
  lemma {:induction false} KeptItems(xs: seq<string>)
    requires |Kept(xs)| == |NonBlank(xs)|
    requires forall k :: 0 <= k < |Kept(xs)| ==> Kept(xs)[k] < |xs|
    ensures forall k :: 0 <= k < |Kept(xs)| ==> NonBlank(xs)[k] == xs[Kept(xs)[k]]
  {
    if xs != [] {
      var tail := xs[1..];
      KeptPositions(tail);
      KeptItems(tail);
      var keep := xs[0] != "";
      assert Kept(xs) == (if keep then [0] else []) + Shift(Kept(tail));
      assert NonBlank(xs) == (if keep then [xs[0]] else []) + NonBlank(tail);
      ItemsShifted(xs, keep, NonBlank(tail), Kept(tail));
    }
  }

  /** One step of `KeptItems`: positions into the tail, shifted by one and
      maybe preceded by position 0, pick the same strings out of `xs`. */
  lemma ItemsShifted(xs: seq<string>, keep: bool, rest: seq<string>, restIdx: seq<nat>)
    requires |xs| >= 1 && |rest| == |restIdx|
    requires forall m :: 0 <= m < |restIdx| ==> restIdx[m] < |xs| - 1 && rest[m] == xs[1..][restIdx[m]]
    ensures var idx, ys := (if keep then [0] else []) + Shift(restIdx), (if keep then [xs[0]] else []) + rest;
      forall k :: 0 <= k < |idx| ==> ys[k] == xs[idx[k]]
  {
    var idx, ys := (if keep then [0] else []) + Shift(restIdx), (if keep then [xs[0]] else []) + rest;
    var h := if keep then 1 else 0;
    forall k | h <= k < |idx|
      ensures ys[k] == xs[idx[k]]
    {
      assert idx[k] == restIdx[k - h] + 1;
      assert ys[k] == rest[k - h];
    }
  }

  /** Every non-empty string is kept. */
  lemma {:induction false} KeptCovers(xs: seq<string>)
    ensures forall i :: 0 <= i < |xs| && xs[i] != "" ==> i in Kept(xs)
  {
    if xs != [] {
      var tail := xs[1..];
      KeptCovers(tail);
      var restIdx := Kept(tail);
      var h: seq<nat> := if xs[0] != "" then [0] else [];
      var idx := Kept(xs);
      assert idx == h + Shift(restIdx);
      forall i | 0 < i < |xs| && xs[i] != ""
        ensures i in idx
      {
        assert tail[i - 1] == xs[i];
        var k :| 0 <= k < |restIdx| && restIdx[k] == i - 1;
        assert idx[|h| + k] == i;
      }
    }
  }

  /** `items` are the stripped pieces that are not blank, in the order of
      `pieces`: item `k` is the stripped piece at the `k`-th kept position,
      the kept positions increase, and every piece that is not blank is kept. */
  predicate StrippedInOrder(pieces: seq<string>, items: seq<string>) {
    var idx := Kept(StripAll(pieces));
    && |idx| == |items| && Increasing(idx)
    && (forall k :: 0 <= k < |idx| ==> idx[k] < |pieces| && items[k] == Strip(pieces[idx[k]]))
    && (forall i :: 0 <= i < |pieces| && Strip(pieces[i]) != "" ==> i in idx)
  }

  /** The comprehension keeps the order of the pieces. */
  lemma StrippedNonEmptyKeepsOrder(pieces: seq<string>)
    ensures StrippedInOrder(pieces, StrippedNonEmpty(pieces))
  {
    var xs := StripAll(pieces);
    KeptPositions(xs);
    KeptItems(xs);
    KeptCovers(xs);
  }

  /** `batch_processing`'s split of the `batch_text` field (empty when
      missing) under the `delimiter` choice (`paragraph` when missing). Under
      a separator every item is non-blank and stripped; under any other
      choice the stripped text is the one item, even when it is empty. */
  function SplitBatch(batchText: Option<string>, delimiter: Option<string>, customDelimiter: Option<string>): (items: seq<string>)
    requires SeparatorFor(delimiter.GetOr(DefaultDelimiter), customDelimiter) != Some("")
    ensures SeparatorFor(delimiter.GetOr(DefaultDelimiter), customDelimiter).None? ==>
              items == [Strip(batchText.GetOr(""))]
    ensures SeparatorFor(delimiter.GetOr(DefaultDelimiter), customDelimiter).Some? ==>
              forall k :: 0 <= k < |items| ==> items[k] != "" && IsStripped(items[k])
  {
    var text := Strip(batchText.GetOr(""));
    match SeparatorFor(delimiter.GetOr(DefaultDelimiter), customDelimiter)
    case None => [text]
    case Some(sep) => StrippedNonEmpty(Split(text, sep))
  }

  /** Under a separator the items are, in order, the stripped non-blank
      segments of the stripped text between occurrences of the separator:
      the segments joined back give the stripped text, no segment holds the
      separator, every cut is at the leftmost occurrence (with the first two,
      this makes the segments unique: see `SplitUnique`), and every segment
      that is not blank gives an item. */
  lemma BatchItemsAreSegments(batchText: Option<string>, delimiter: Option<string>, customDelimiter: Option<string>)
    requires SeparatorFor(delimiter.GetOr(DefaultDelimiter), customDelimiter).Some?
    requires SeparatorFor(delimiter.GetOr(DefaultDelimiter), customDelimiter) != Some("")
    ensures var sep := SeparatorFor(delimiter.GetOr(DefaultDelimiter), customDelimiter).value;
      var text := Strip(batchText.GetOr(""));
      var segments := Split(text, sep);
      && Join(segments, sep) == text
      && (forall p :: p in segments ==> !Contains(p, sep))
      && LeftmostCuts(segments, sep)
      && StrippedInOrder(segments, SplitBatch(batchText, delimiter, customDelimiter))
  {
    var sep := SeparatorFor(delimiter.GetOr(DefaultDelimiter), customDelimiter).value;
    var text := Strip(batchText.GetOr(""));
    assert SplitBatch(batchText, delimiter, customDelimiter) == StrippedNonEmpty(Split(text, sep));
    SplitJoin(text, sep);
    SplitPiecesHaveNoSeparator(text, sep);
    SplitLeftmost(text, sep);
    StrippedNonEmptyKeepsOrder(Split(text, sep));
  }
}
