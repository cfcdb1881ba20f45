/**
 * The taken-history of a medicine sensor: the list update of `mark_taken`
 * (append, stable sort by instant, keep the last ten), the attributes the
 * history is persisted in, and their restore.
 */
module History {
  import opened Wrappers
  import opened Clock

  /** How many entries `mark_taken` keeps. */
  const HistoryCap := 10

  /** Ascending by instant; entries at the same instant may carry different zones. */
  predicate SortedByInstant(h: seq<Stamp>)
  {
    forall i, j :: 0 <= i < j < |h| ==> h[i].utc <= h[j].utc
  }

  /** Puts `x` after every entry of the (sorted) `h` that is not later than it. */
  function Insert(h: seq<Stamp>, x: Stamp): (r: seq<Stamp>)
    ensures multiset(r) == multiset(h) + multiset{x} && |r| == |h| + 1
  {
    if h == [] then [x]
    else if x.utc < h[0].utc then [x] + h
    else
      assert h == [h[0]] + h[1..];
      [h[0]] + Insert(h[1..], x)
  }

  /** Inserting into a sorted history keeps it sorted. */
  lemma {:induction false} InsertSorted(h: seq<Stamp>, x: Stamp)
    requires SortedByInstant(h)
    ensures SortedByInstant(Insert(h, x))
  {
    if h != [] && x.utc >= h[0].utc {
      var rest := Insert(h[1..], x);
      InsertSorted(h[1..], x);
      assert h == [h[0]] + h[1..];
      forall k | 0 <= k < |rest| ensures h[0].utc <= rest[k].utc {
        assert rest[k] in multiset(h[1..]) + multiset{x};
      }
    }
  }

  /**
   * `list.sort()` on instants: a stable sort, so entries at the same instant
   * keep their order.  Here as insertion of each entry, last one last.
   */
  function SortByInstant(s: seq<Stamp>): (r: seq<Stamp>)
    ensures multiset(r) == multiset(s) && |r| == |s|
    ensures SortedByInstant(r)
  {
    if |s| == 0 then []
    else
      assert s == s[..|s| - 1] + [s[|s| - 1]];
      InsertSorted(SortByInstant(s[..|s| - 1]), s[|s| - 1]);
      Insert(SortByInstant(s[..|s| - 1]), s[|s| - 1])
  }

  /**
   * `h[-n:]` for a positive `n`: the last `n` entries, or all of them when
   * there are fewer.  (Python's `h[-0:]` is the whole list, so `n` is positive.)
   */
  function Newest(h: seq<Stamp>, n: nat): (r: seq<Stamp>)
    requires n > 0
    ensures |r| == if |h| < n then |h| else n
    ensures r == h[|h| - |r|..]
  {
    if |h| > n then h[|h| - n..] else h
  }

  /** The history after `mark_taken` records `x`. */
  function Recorded(h: seq<Stamp>, x: Stamp): (r: seq<Stamp>)
    ensures SortedByInstant(r) && 0 < |r| <= HistoryCap
    ensures multiset(r) <= multiset(h) + multiset{x}
  {
    NewestOfSorted(SortByInstant(h + [x]), HistoryCap);
    Newest(SortByInstant(h + [x]), HistoryCap)
  }

  /** An entry no earlier than every entry of a sorted list goes at its end. */
  lemma {:induction false} InsertLatest(h: seq<Stamp>, x: Stamp)
    requires forall i :: 0 <= i < |h| ==> h[i].utc <= x.utc
    ensures Insert(h, x) == h + [x]
  {
    if h != [] {
      InsertLatest(h[1..], x);
      assert [h[0]] + (h[1..] + [x]) == h + [x];
    }
  }

  /** Sorting an already sorted history changes nothing. */
  lemma {:induction false} SortSortedIsIdentity(s: seq<Stamp>)
    requires SortedByInstant(s)
    ensures SortByInstant(s) == s
  {
    if |s| > 0 {
      var init := s[..|s| - 1];
      SortSortedIsIdentity(init);
      InsertLatest(init, s[|s| - 1]);
      assert init + [s[|s| - 1]] == s;
    }
  }

  /** The entries of `h` at instant `t`, in their order in `h`. */
  function AtInstant(h: seq<Stamp>, t: int): seq<Stamp>
  {
    if |h| == 0 then []
    else (if h[0].utc == t then [h[0]] else []) + AtInstant(h[1..], t)
  }

  lemma {:induction false} AtInstantConcat(a: seq<Stamp>, b: seq<Stamp>, t: int)
    ensures AtInstant(a + b, t) == AtInstant(a, t) + AtInstant(b, t)
  {
    if |a| > 0 {
      AtInstantConcat(a[1..], b, t);
      assert (a + b)[1..] == a[1..] + b;
    } else {
      assert a + b == b;
    }
  }

  lemma {:induction false} AtInstantNone(h: seq<Stamp>, t: int)
    requires forall i :: 0 <= i < |h| ==> h[i].utc != t
    ensures AtInstant(h, t) == []
  {
    if |h| > 0 {
      AtInstantNone(h[1..], t);
    }
  }

  lemma AtInstantLast(s: seq<Stamp>, t: int)
    requires |s| > 0
    ensures AtInstant(s, t) == AtInstant(s[..|s| - 1], t) + (if s[|s| - 1].utc == t then [s[|s| - 1]] else [])
  {
    var last := s[|s| - 1];
    assert s == s[..|s| - 1] + [last];
    AtInstantConcat(s[..|s| - 1], [last], t);
    assert [last][1..] == [];
  }

  /** Inserting into a sorted history puts `x` after every entry at its own instant. */
  lemma {:induction false} InsertAtInstant(h: seq<Stamp>, x: Stamp, t: int)
    requires SortedByInstant(h)
    ensures AtInstant(Insert(h, x), t) == AtInstant(h, t) + (if x.utc == t then [x] else [])
  {
    var own := if x.utc == t then [x] else [];
    if h == [] {
      assert [x][1..] == [];
      assert AtInstant([x], t) == own + AtInstant([], t);
    } else if x.utc < h[0].utc {
      assert ([x] + h)[1..] == h;
      assert AtInstant([x] + h, t) == own + AtInstant(h, t);
      if x.utc == t {
        AtInstantNone(h, t);
      }
    } else {
      var head := if h[0].utc == t then [h[0]] else [];
      assert SortedByInstant(h[1..]);
      InsertAtInstant(h[1..], x, t);
      var rest := Insert(h[1..], x);
      assert ([h[0]] + rest)[1..] == rest;
      assert AtInstant([h[0]] + rest, t) == head + AtInstant(rest, t);
      assert AtInstant(h, t) == head + AtInstant(h[1..], t);
    }
  }

  /**
   * The sort is stable: the entries at any one instant keep the order they
   * had before sorting.
   */
  lemma {:induction false} SortIsStable(s: seq<Stamp>, t: int)
    ensures AtInstant(SortByInstant(s), t) == AtInstant(s, t)
  {
    if |s| > 0 {
      var init, last := s[..|s| - 1], s[|s| - 1];
      var sorted := SortByInstant(init);
      assert SortByInstant(s) == Insert(sorted, last);
      SortIsStable(init, t);
      InsertAtInstant(sorted, last, t);
      AtInstantLast(s, t);
    }
  }

  /** Entries cut from the front of a sorted list are no later than the ones kept. */
  lemma DroppedNoLater(s: seq<Stamp>, r: seq<Stamp>, y: Stamp, z: Stamp)
    requires SortedByInstant(s) && |r| <= |s| && r == s[|s| - |r|..]
    requires y in s && y !in r && z in r
    ensures y.utc <= z.utc
  {
    var cut := |s| - |r|;
    var i :| 0 <= i < |s| && s[i] == y;
    var j :| 0 <= j < |r| && r[j] == z;
    assert s[cut + j] == z;
    assert i < cut;
  }

  /** The newest entries of a sorted list are sorted and are some of its entries. */
  lemma NewestOfSorted(s: seq<Stamp>, n: nat)
    requires n > 0
    requires SortedByInstant(s)
    ensures SortedByInstant(Newest(s, n))
    ensures multiset(Newest(s, n)) <= multiset(s)
  {
    var r := Newest(s, n);
    assert s == s[..|s| - |r|] + r;
    assert multiset(s) == multiset(s[..|s| - |r|]) + multiset(r);
  }

  /**
   * After `mark_taken`: the history is sorted by instant, holds at most ten
   * entries, and holds exactly one more than before while there is room,
   * even when the new instant is already present.  Every entry that fell
   * off the front is no later than every entry kept.
   */
  lemma RecordedKeepsNewest(h: seq<Stamp>, x: Stamp)
    ensures var r := Recorded(h, x);
      && SortedByInstant(r)
      && |r| == (if |h| < HistoryCap then |h| + 1 else HistoryCap)
      && multiset(r) <= multiset(h) + multiset{x}
      && (|h| < HistoryCap ==> multiset(r) == multiset(h) + multiset{x})
      && forall y, z :: y in h + [x] && y !in r && z in r ==> y.utc <= z.utc
  {
    var s := SortByInstant(h + [x]);
    var r := Recorded(h, x);
    NewestOfSorted(s, HistoryCap);
    forall y, z | y in h + [x] && y !in r && z in r ensures y.utc <= z.utc {
      assert y in multiset(h + [x]);
      DroppedNoLater(s, r, y, z);
    }
  }

  /** Marking an instant no earlier than any recorded one makes it the last entry, i.e. `last_taken`. */
  lemma {:induction false} RecordedLatestIsLast(h: seq<Stamp>, x: Stamp)
    requires forall i :: 0 <= i < |h| ==> h[i].utc <= x.utc
    ensures var r := Recorded(h, x); |r| > 0 && r[|r| - 1] == x
  {
    var sorted := SortByInstant(h);
    forall i | 0 <= i < |sorted| ensures sorted[i].utc <= x.utc {
      assert sorted[i] in multiset(h);
    }
    InsertLatest(sorted, x);
    assert (h + [x])[..|h|] == h;
  }

  /** What `dt_util.parse_datetime` does with one stored string. */
  datatype Parsed = Parsed(stamp: Stamp) | NoMatch | Raises

  /** The restore-relevant attributes of the last stored state; None for an absent attribute. */
  datatype Stored = Stored(history: Option<seq<string>>, lastTaken: Option<string>)

  /** The entries of `raw` that parse, in stored order. */
  function KeepParsed(raw: seq<string>, parse: string -> Parsed): (r: seq<Stamp>)
    ensures |r| <= |raw|
  {
    if |raw| == 0 then []
    else match parse(raw[0])
      case Parsed(x) => [x] + KeepParsed(raw[1..], parse)
      case _ => KeepParsed(raw[1..], parse)
  }

  /** Every stored string a restore may read. */
  function Texts(st: Stored): seq<string>
  {
    (if st.history.Some? then st.history.value else []) + (if st.lastTaken.Some? then [st.lastTaken.value] else [])
  }

  predicate AnyRaises(raw: seq<string>, parse: string -> Parsed)
  {
    exists i :: 0 <= i < |raw| && parse(raw[i]).Raises?
  }

  /**
   * The history after restoring from the last stored state: a non-empty
   * "history" list gives its parsable entries in stored order (with no sort
   * and no cap), unless one of them raises, which leaves the history as it
   * was; otherwise a legacy "last_taken" that parses gives a one-entry history.
   */
  function Restored(current: seq<Stamp>, stored: Option<Stored>, parse: string -> Parsed): (r: seq<Stamp>)
    ensures stored.None? ==> r == current
    ensures stored.Some? && stored.value.history.Some? && |stored.value.history.value| > 0 ==>
      r == if AnyRaises(stored.value.history.value, parse) then current else KeepParsed(stored.value.history.value, parse)
    ensures stored.Some? && (stored.value.history.None? || |stored.value.history.value| == 0) ==>
      r == if stored.value.lastTaken.Some? && stored.value.lastTaken.value != "" && parse(stored.value.lastTaken.value).Parsed?
           then [parse(stored.value.lastTaken.value).stamp] else current
    ensures r != current ==> stored.Some? && forall x :: x in r ==> exists d :: d in Texts(stored.value) && parse(d) == Parsed(x)
  {
    match stored
    case None => current
    case Some(st) =>
      if st.history.Some? && |st.history.value| > 0 then
        if AnyRaises(st.history.value, parse) then current
        else
          var r := KeepParsed(st.history.value, parse);
          assert forall x :: x in r ==> exists d :: d in Texts(st) && parse(d) == Parsed(x) by {
            forall x | x in r ensures exists d :: d in Texts(st) && parse(d) == Parsed(x) {
              KeepParsedMembers(st.history.value, parse, x);
              var i :| 0 <= i < |st.history.value| && parse(st.history.value[i]) == Parsed(x);
              assert st.history.value[i] in Texts(st);
            }
          }
          r
      else if st.lastTaken.Some? && st.lastTaken.value != "" then
        match parse(st.lastTaken.value)
        case Parsed(x) => assert st.lastTaken.value in Texts(st); [x]
        case _ => current
      else current
  }

  /** Renders every entry, as the "history" attribute lists them. */
  function RenderAll(h: seq<Stamp>, render: Stamp -> string): (r: seq<string>)
    ensures |r| == |h|
    ensures forall i :: 0 <= i < |h| ==> r[i] == render(h[i])
  {
    if |h| == 0 then [] else [render(h[0])] + RenderAll(h[1..], render)
  }

  /** The "last_taken" and "history" attributes of a history, each present only when it is non-empty. */
  function Persisted(h: seq<Stamp>, render: Stamp -> string): (r: Stored)
    ensures r == Stored(None, None) <==> |h| == 0
    ensures |h| > 0 ==> r.history.Some? && |r.history.value| == |h| && r.lastTaken == Some(r.history.value[|h| - 1])
    ensures |h| > 0 ==> (forall i :: 0 <= i < |h| ==> r.history.value[i] == render(h[i])) && r.lastTaken == Some(render(h[|h| - 1]))
  {
    if |h| == 0 then Stored(None, None)
    else Stored(Some(RenderAll(h, render)), Some(render(h[|h| - 1])))
  }

  /** Restore keeps the parsable entries in their stored order: it works entry by entry. */
  lemma {:induction false} KeepParsedConcat(a: seq<string>, b: seq<string>, parse: string -> Parsed)
    ensures KeepParsed(a + b, parse) == KeepParsed(a, parse) + KeepParsed(b, parse)
  {
    if |a| > 0 {
      KeepParsedConcat(a[1..], b, parse);
      assert (a + b)[1..] == a[1..] + b;
    } else {
      assert a + b == b;
    }
  }

  /** An instant is restored exactly when some stored entry parses to it. */
  lemma {:induction false} KeepParsedMembers(raw: seq<string>, parse: string -> Parsed, x: Stamp)
    ensures x in KeepParsed(raw, parse) <==> exists i :: 0 <= i < |raw| && parse(raw[i]) == Parsed(x)
  {
    if |raw| > 0 {
      KeepParsedMembers(raw[1..], parse, x);
      if exists i :: 0 <= i < |raw| && parse(raw[i]) == Parsed(x) {
        var i :| 0 <= i < |raw| && parse(raw[i]) == Parsed(x);
        if i > 0 { assert parse(raw[1..][i - 1]) == Parsed(x); }
      }
      if exists i :: 0 <= i < |raw[1..]| && parse(raw[1..][i]) == Parsed(x) {
        var i :| 0 <= i < |raw[1..]| && parse(raw[1..][i]) == Parsed(x);
        assert parse(raw[i + 1]) == Parsed(x);
      }
    }
  }

  /**
   * The date parser reads every entry's rendering back as the same instant.
   * Only the instant survives the text: the rendering carries a fixed UTC
   * offset, not the zone the entry was taken in.
   */
  predicate ReadsBack(h: seq<Stamp>, render: Stamp -> string, parse: string -> Parsed)
  {
    forall i :: 0 <= i < |h| ==> parse(render(h[i])).Parsed? && parse(render(h[i])).stamp.utc == h[i].utc
  }

  /** Two histories that hold the same instants in the same order. */
  predicate SameInstants(a: seq<Stamp>, b: seq<Stamp>)
  {
    |a| == |b| && forall i :: 0 <= i < |a| ==> a[i].utc == b[i].utc
  }

  lemma {:induction false} KeepParsedRendered(h: seq<Stamp>, render: Stamp -> string, parse: string -> Parsed)
    requires ReadsBack(h, render, parse)
    ensures SameInstants(KeepParsed(RenderAll(h, render), parse), h)
    ensures !AnyRaises(RenderAll(h, render), parse)
  {
    if |h| > 0 {
      assert ReadsBack(h[1..], render, parse) by {
        forall i | 0 <= i < |h[1..]| ensures parse(render(h[1..][i])).Parsed? && parse(render(h[1..][i])).stamp.utc == h[1..][i].utc {
          assert h[1..][i] == h[i + 1];
        }
      }
      KeepParsedRendered(h[1..], render, parse);
      var raw := RenderAll(h, render);
      assert raw[1..] == RenderAll(h[1..], render);
      var k := KeepParsed(raw, parse);
      assert k == [parse(render(h[0])).stamp] + KeepParsed(raw[1..], parse);
      forall i | 0 <= i < |k| ensures k[i].utc == h[i].utc {
        if i > 0 { assert k[i] == KeepParsed(raw[1..], parse)[i - 1]; }
      }
    }
  }

  /**
   * Persisting a history and restoring it into a fresh sensor gives the same
   * instants back in the same order, whenever the date parser reads back
   * every rendered entry as its instant.
   */
  lemma RestoreRoundTrip(h: seq<Stamp>, render: Stamp -> string, parse: string -> Parsed)
    requires ReadsBack(h, render, parse)
    ensures SameInstants(Restored([], Some(Persisted(h, render)), parse), h)
  {
    KeepParsedRendered(h, render, parse);
  }

  /** A legacy single "last_taken" that parses becomes a one-entry history. */
  lemma LegacyLastTaken(current: seq<Stamp>, s: string, parse: string -> Parsed, x: Stamp)
    requires parse(s) == Parsed(x) && s != ""
    ensures Restored(current, Some(Stored(None, Some(s))), parse) == [x]
    ensures Restored(current, Some(Stored(Some([]), Some(s))), parse) == [x]
  {
  }
}
