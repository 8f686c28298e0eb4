/**
 * The integer part of the analytics page: the number of tasks, tasks per
 * audio format, and the total length of the synthesized texts. The format
 * counts are a Python dict, which keeps its keys in insertion order; it is
 * modelled as a list of (format, count) pairs with distinct formats.
 */
module Analytics {
  import opened Wrappers
  import opened Metadata

  const UnknownFormat := "unknown"

  datatype FormatCount = FormatCount(format: string, count: nat)

  /** `no_data`, or the integer fields of `analytics_data`. */
  datatype Report = NoData | Report(totalTasks: nat, formats: seq<FormatCount>, totalChars: nat)

  /** `task.get('format', 'unknown')`. */
  function FormatOf(r: Record): string {
    r.format.GetOr(UnknownFormat)
  }

  /** `len(task.get('text', ''))`. */
  function TextLength(r: Record): nat {
    |r.text.GetOr("")|
  }

  /** How many records have format `f`. */
  function CountFormat(records: seq<Record>, f: string): nat {
    if records == [] then 0
    else CountFormat(records[..|records| - 1], f) + (if FormatOf(records[|records| - 1]) == f then 1 else 0)
  }

  /** The summed text lengths. */
  function TotalChars(records: seq<Record>): nat {
    if records == [] then 0
    else TotalChars(records[..|records| - 1]) + TextLength(records[|records| - 1])
  }

  function SumCounts(fs: seq<FormatCount>): nat {
    if fs == [] then 0 else fs[0].count + SumCounts(fs[1..])
  }

  /** `f` is a key of the dict. */
  predicate HasFormat(fs: seq<FormatCount>, f: string) {
    exists k :: 0 <= k < |fs| && fs[k].format == f
  }

  /** No format is listed twice, as in a dict. */
  predicate DistinctFormats(fs: seq<FormatCount>) {
    forall i, j :: 0 <= i < j < |fs| ==> fs[i].format != fs[j].format
  }

  /** `formats[fmt] = formats.get(fmt, 0) + 1`. */
  function Bump(fs: seq<FormatCount>, fmt: string): seq<FormatCount> {
    if fs == [] then [FormatCount(fmt, 1)]
    else if fs[0].format == fmt then [FormatCount(fmt, fs[0].count + 1)] + fs[1..]
    else [fs[0]] + Bump(fs[1..], fmt)
  }

  /** The count of `fmt` goes up by one and the others stay; a format not yet
      listed is added at the end with count one. */
  lemma {:induction false} BumpShape(fs: seq<FormatCount>, fmt: string)
    requires DistinctFormats(fs)
    ensures var r := Bump(fs, fmt);
      && |r| == (if HasFormat(fs, fmt) then |fs| else |fs| + 1)
      && (forall k :: 0 <= k < |fs| ==>
            r[k].format == fs[k].format && r[k].count == fs[k].count + (if fs[k].format == fmt then 1 else 0))
      && (!HasFormat(fs, fmt) ==> r[|fs|] == FormatCount(fmt, 1))
  {
    if fs != [] && fs[0].format != fmt {
      var tail := fs[1..];
      BumpShape(tail, fmt);
      assert HasFormat(fs, fmt) ==> HasFormat(tail, fmt) by {
        if HasFormat(fs, fmt) {
          var k :| 0 <= k < |fs| && fs[k].format == fmt;
          assert tail[k - 1].format == fmt;
        }
      }
      assert HasFormat(tail, fmt) ==> HasFormat(fs, fmt) by {
        if HasFormat(tail, fmt) {
          var k :| 0 <= k < |tail| && tail[k].format == fmt;
          assert fs[k + 1].format == fmt;
        }
      }
    } else if fs != [] {
      assert HasFormat(fs, fmt) by { assert fs[0].format == fmt; }
    }
  }

  /** One more task counted. */
  lemma {:induction false} BumpSum(fs: seq<FormatCount>, fmt: string)
    ensures SumCounts(Bump(fs, fmt)) == SumCounts(fs) + 1
  {
    if fs != [] && fs[0].format != fmt {
      BumpSum(fs[1..], fmt);
    } else if fs != [] {
      assert Bump(fs, fmt)[1..] == fs[1..];
    }
  }

  /** The counts are a tally of `records`: distinct formats, one count per
      record in all, each count that format's number of records, and every
      record's format listed. */
  ghost predicate Tally(records: seq<Record>, fs: seq<FormatCount>) {
    && DistinctFormats(fs)
    && SumCounts(fs) == |records|
    && (forall k :: 0 <= k < |fs| ==> fs[k].count > 0)
    && (forall k :: 0 <= k < |fs| ==> fs[k].count == CountFormat(records, fs[k].format))
    && (forall j :: 0 <= j < |records| ==> HasFormat(fs, FormatOf(records[j])))
  }

  /** Counting one more record keeps the formats distinct. */
  lemma BumpDistinct(fs: seq<FormatCount>, fmt: string)
    requires DistinctFormats(fs)
    ensures DistinctFormats(Bump(fs, fmt))
  {
    BumpShape(fs, fmt);
  }

  /** Counting one more record keeps each count equal to its format's tally. */
  lemma BumpCounts(records: seq<Record>, fs: seq<FormatCount>, r: Record)
    requires DistinctFormats(fs)
    requires forall k :: 0 <= k < |fs| ==> fs[k].count == CountFormat(records, fs[k].format)
    requires forall j :: 0 <= j < |records| ==> HasFormat(fs, FormatOf(records[j]))
    ensures var out := Bump(fs, FormatOf(r));
      forall k :: 0 <= k < |out| ==> out[k].count == CountFormat(records + [r], out[k].format)
  {
    var fmt := FormatOf(r);
    var after := records + [r];
    assert after[..|after| - 1] == records;
    BumpShape(fs, fmt);
    if !HasFormat(fs, fmt) {
      assert forall j :: 0 <= j < |records| ==> FormatOf(records[j]) != fmt;
      CountAbsent(records, fmt);
    }
  }

  /** After counting one more record, every record's format is listed. */
  lemma BumpCovers(records: seq<Record>, fs: seq<FormatCount>, r: Record)
    requires DistinctFormats(fs)
    requires forall j :: 0 <= j < |records| ==> HasFormat(fs, FormatOf(records[j]))
    ensures var out, after := Bump(fs, FormatOf(r)), records + [r];
      forall j :: 0 <= j < |after| ==> HasFormat(out, FormatOf(after[j]))
  {
    var fmt := FormatOf(r);
    var after := records + [r];
    var out := Bump(fs, fmt);
    BumpShape(fs, fmt);
    forall j | 0 <= j < |after|
      ensures HasFormat(out, FormatOf(after[j]))
    {
      if j < |records| {
        var k :| 0 <= k < |fs| && fs[k].format == FormatOf(records[j]);
        assert out[k].format == FormatOf(after[j]);
      } else if HasFormat(fs, fmt) {
        var k :| 0 <= k < |fs| && fs[k].format == fmt;
        assert out[k].format == fmt;
      } else {
        assert out[|fs|].format == fmt;
      }
    }
  }

  /** Counting one more record leaves no format with a count of zero. */
  lemma BumpPositive(fs: seq<FormatCount>, fmt: string)
    requires DistinctFormats(fs)
    requires forall k :: 0 <= k < |fs| ==> fs[k].count > 0
    ensures var out := Bump(fs, fmt);
      forall k :: 0 <= k < |out| ==> out[k].count > 0
  {
    BumpShape(fs, fmt);
  }

  /** Counting one more record keeps the tally. */
  lemma BumpTally(records: seq<Record>, fs: seq<FormatCount>, r: Record)
    requires Tally(records, fs)
    ensures Tally(records + [r], Bump(fs, FormatOf(r)))
  {
    BumpSum(fs, FormatOf(r));
    BumpDistinct(fs, FormatOf(r));
    BumpPositive(fs, FormatOf(r));
    BumpCounts(records, fs, r);
    BumpCovers(records, fs, r);
  }

  /** `analytics`: no data for an empty record set; otherwise every record
      is counted once under its format (`unknown` when it has none), the
      counts add up to the number of tasks, each listed count is that
      format's number of records, and the text lengths are summed. */
  method Analyze(records: seq<Record>) returns (report: Report)
    ensures report.NoData? <==> records == []
    ensures report.Report? ==> report.totalTasks == |records|
    ensures report.Report? ==> SumCounts(report.formats) == report.totalTasks
    ensures report.Report? ==> DistinctFormats(report.formats)
    ensures report.Report? ==> forall k :: 0 <= k < |report.formats| ==>
              report.formats[k].count == CountFormat(records, report.formats[k].format)
    ensures report.Report? ==> forall k :: 0 <= k < |report.formats| ==> report.formats[k].count > 0
    ensures report.Report? ==> forall f :: HasFormat(report.formats, f) <==> exists i :: 0 <= i < |records| && FormatOf(records[i]) == f
    ensures report.Report? ==> report.totalChars == TotalChars(records)
  {
    var totalTasks := |records|;
    if totalTasks == 0 {
      return NoData;
    }
    var formats: seq<FormatCount> := [];
    var totalChars := 0;
    var i := 0;
    while i < |records|
      invariant 0 <= i <= |records|
      invariant Tally(records[..i], formats)
      invariant totalChars == TotalChars(records[..i])
    {
      var task := records[i];
      assert records[..i + 1] == records[..i] + [task];
      BumpTally(records[..i], formats, task);
      formats := Bump(formats, FormatOf(task));
      totalChars := totalChars + TextLength(task);
      i := i + 1;
    }
    assert records[..i] == records;
    forall f | HasFormat(formats, f)
      ensures exists i :: 0 <= i < |records| && FormatOf(records[i]) == f
    {
      var k :| 0 <= k < |formats| && formats[k].format == f;
      CountedFormatOccurs(records, f);
    }
    report := Report(totalTasks, formats, totalChars);
  }

  /** A format counted at least once is the format of some record. */
  lemma {:induction false} CountedFormatOccurs(records: seq<Record>, f: string)
    requires CountFormat(records, f) > 0
    ensures exists i :: 0 <= i < |records| && FormatOf(records[i]) == f
  {
    var last := |records| - 1;
    if FormatOf(records[last]) != f {
      CountedFormatOccurs(records[..last], f);
      var i :| 0 <= i < last && FormatOf(records[..last][i]) == f;
      assert FormatOf(records[i]) == f;
    }
  }

  /** A format no record has counts zero. */
  lemma {:induction false} CountAbsent(records: seq<Record>, f: string)
    requires forall j :: 0 <= j < |records| ==> FormatOf(records[j]) != f
    ensures CountFormat(records, f) == 0
  {
    if records != [] {
      CountAbsent(records[..|records| - 1], f);
    }
  }
}
