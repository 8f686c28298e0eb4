/**
 * The history page (`dashboard`): loaded records listed newest first by
 * their `timestamp` string, a record without one counting as `''`. The
 * sort is Python's `list.sort(key=..., reverse=True)`, which is stable:
 * records with equal keys stay in listing order.
 */
module History {
  import opened Wrappers
  import opened Text
  import opened Metadata

  /** `x.get('timestamp', '')`. */
  function Key(r: Record): string {
    r.timestamp.GetOr("")
  }

  /** Timestamps never increase along the list (in string order). */
  predicate NewestFirst(rs: seq<Record>) {
    forall i, j :: 0 <= i < j < |rs| ==> LessOrEqual(Key(rs[j]), Key(rs[i]))
  }

  /** The records of `rs` whose key is `k`, in order. */
  function WithKey(rs: seq<Record>, k: string): seq<Record> {
    if rs == [] then []
    else (if Key(rs[0]) == k then [rs[0]] else []) + WithKey(rs[1..], k)
  }

  /** Puts `r` before the first record whose key is not greater than its own. */
  function Insert(r: Record, sorted: seq<Record>): seq<Record> {
    if sorted == [] || LessOrEqual(Key(sorted[0]), Key(r)) then [r] + sorted
    else [sorted[0]] + Insert(r, sorted[1..])
  }

  /** The sorted listing: stable, descending by key. */
  function SortNewestFirst(rs: seq<Record>): seq<Record> {
    if rs == [] then [] else Insert(rs[0], SortNewestFirst(rs[1..]))
  }

  /** Inserting adds exactly `r`. */
  lemma {:induction false} InsertMembers(r: Record, sorted: seq<Record>)
    ensures multiset(Insert(r, sorted)) == multiset(sorted) + multiset{r}
  {
    if sorted != [] && !LessOrEqual(Key(sorted[0]), Key(r)) {
      InsertMembers(r, sorted[1..]);
      assert sorted == [sorted[0]] + sorted[1..];
    }
  }

  /** Inserting into a newest-first list keeps it newest first. */
  lemma {:induction false} InsertKeepsOrder(r: Record, sorted: seq<Record>)
    requires NewestFirst(sorted)
    ensures NewestFirst(Insert(r, sorted))
    ensures multiset(Insert(r, sorted)) == multiset(sorted) + multiset{r}
  {
    InsertMembers(r, sorted);
    if sorted == [] {
    } else if LessOrEqual(Key(sorted[0]), Key(r)) {
      var out := [r] + sorted;
      forall j | 0 < j < |out|
        ensures LessOrEqual(Key(out[j]), Key(out[0]))
      {
        if j > 1 { LessOrEqualTransitive(Key(out[j]), Key(sorted[0]), Key(r)); }
      }
    } else {
      var tail := sorted[1..];
      InsertKeepsOrder(r, tail);
      InsertHeadStaysFirst(r, sorted);
    }
  }

  /** When `r` goes behind the head, the head stays newest. */
  lemma InsertHeadStaysFirst(r: Record, sorted: seq<Record>)
    requires NewestFirst(sorted) && sorted != [] && !LessOrEqual(Key(sorted[0]), Key(r))
    requires NewestFirst(Insert(r, sorted[1..]))
    requires multiset(Insert(r, sorted[1..])) == multiset(sorted[1..]) + multiset{r}
    ensures NewestFirst(Insert(r, sorted))
  {
    var tail := sorted[1..];
    var ins := Insert(r, tail);
    var out := [sorted[0]] + ins;
    assert out == Insert(r, sorted);
    LessOrEqualTotal(Key(sorted[0]), Key(r));
    forall j | 0 < j < |out|
      ensures LessOrEqual(Key(out[j]), Key(out[0]))
    {
      var x := out[j];
      assert x in multiset(ins);
      assert x == r || x in multiset(tail);
      if x != r {
        var m :| 0 <= m < |tail| && tail[m] == x;
        assert sorted[m + 1] == x;
      }
    }
  }

  /** Inserting `r` puts it after every record with a greater key and before
      the others, so among records with `r`'s key it comes first. */
  lemma {:induction false} InsertWithKey(r: Record, sorted: seq<Record>, k: string)
    ensures WithKey(Insert(r, sorted), k) == WithKey([r], k) + WithKey(sorted, k)
  {
    if sorted == [] || LessOrEqual(Key(sorted[0]), Key(r)) {
      WithKeyAppend([r], sorted, k);
    } else {
      var tail := sorted[1..];
      InsertWithKey(r, tail, k);
      LessOrEqualReflexive(Key(r));
      assert Key(sorted[0]) != Key(r);
      WithKeyAppend([sorted[0]], Insert(r, tail), k);
      WithKeyAppend([sorted[0]], tail, k);
      assert sorted == [sorted[0]] + tail;
    }
  }

  lemma {:induction false} WithKeyAppend(a: seq<Record>, b: seq<Record>, k: string)
    ensures WithKey(a + b, k) == WithKey(a, k) + WithKey(b, k)
    decreases |a|
  {
    if a == [] {
      assert a + b == b;
    } else {
      assert (a + b)[0] == a[0] && (a + b)[1..] == a[1..] + b;
      WithKeyAppend(a[1..], b, k);
    }
  }

  /** The listing is sorted newest first and is a permutation of the records. */
  lemma {:induction false} SortNewestFirstSorts(rs: seq<Record>)
    ensures NewestFirst(SortNewestFirst(rs))
    ensures multiset(SortNewestFirst(rs)) == multiset(rs)
  {
    if rs != [] {
      SortNewestFirstSorts(rs[1..]);
      InsertKeepsOrder(rs[0], SortNewestFirst(rs[1..]));
      assert rs == [rs[0]] + rs[1..];
    }
  }

  /** The sort is stable: records that share a key keep their listing order. */
  lemma {:induction false} SortNewestFirstStable(rs: seq<Record>, k: string)
    ensures WithKey(SortNewestFirst(rs), k) == WithKey(rs, k)
  {
    if rs != [] {
      SortNewestFirstStable(rs[1..], k);
      InsertWithKey(rs[0], SortNewestFirst(rs[1..]), k);
      WithKeyAppend([rs[0]], rs[1..], k);
      assert rs == [rs[0]] + rs[1..];
    }
  }

  /** Records without a timestamp (key `''`) come last: anything listed after
      one also has key `''`. */
  lemma MissingTimestampsLast(rs: seq<Record>, i: nat, j: nat)
    requires NewestFirst(rs)
    requires i < j < |rs| && rs[i].timestamp.None?
    ensures Key(rs[j]) == ""
  {
    AtMostEmptyIsEmpty(Key(rs[j]));
  }

  /** `dashboard`: load the `*.json` records, then sort them newest first. */
  method Dashboard(dir: seq<DirEntry>) returns (tasks: seq<Record>)
    ensures NewestFirst(tasks)
    ensures multiset(tasks) == multiset(Loaded(dir))
    ensures forall k :: WithKey(tasks, k) == WithKey(Loaded(dir), k)
  {
    var loaded := LoadRecords(dir);
    tasks := SortNewestFirst(loaded);
    SortNewestFirstSorts(loaded);
    forall k ensures WithKey(tasks, k) == WithKey(loaded, k) {
      SortNewestFirstStable(loaded, k);
    }
  }
}
