/** The interval store: two ordered lists of saved `{start, end}` intervals,
    the generic regions and the smoking labels, and the rule by which the
    delete action picks the one interval to drop. */
module Intervals {

  /** A saved interval. Nothing requires `start <= end`. */
  datatype Interval = Interval(start: int, end: int)

  /** The x-axis range the user has zoomed or panned the chart to. */
  datatype Selection = Selection(start: int, end: int)

  datatype Store = Store(regions: seq<Interval>, labels: seq<Interval>)

  /** The delete filter: the selection lies strictly inside the interval
      (the interval starts before the selection and ends after it).
      A selection at exactly an interval's own bounds does not pick it. */
  predicate Encloses(iv: Interval, sel: Selection)
    ensures sel == Selection(iv.start, iv.end) ==> !Encloses(iv, sel)
  {
    sel.start > iv.start && sel.end < iv.end
  }

  /** The intervals that enclose the selection, in stored order, duplicates kept. */
  function Candidates(ivs: seq<Interval>, sel: Selection): (r: seq<Interval>)
    ensures |r| <= |ivs|
    ensures forall iv :: iv in r <==> iv in ivs && Encloses(iv, sel)
  {
    if |ivs| == 0 then []
    else
      assert ivs == [ivs[0]] + ivs[1..];
      (if Encloses(ivs[0], sel) then [ivs[0]] else []) + Candidates(ivs[1..], sel)
  }

  /** Appending an interval appends it to the candidates exactly when it encloses the selection. */
  lemma {:induction false} CandidatesAppend(ivs: seq<Interval>, iv: Interval, sel: Selection)
    ensures Candidates(ivs + [iv], sel) == Candidates(ivs, sel) + (if Encloses(iv, sel) then [iv] else [])
  {
    var tail := if Encloses(iv, sel) then [iv] else [];
    if |ivs| == 0 {
      assert ivs + [iv] == [iv];
      assert [iv][1..] == [];
    } else {
      var head := if Encloses(ivs[0], sel) then [ivs[0]] else [];
      assert (ivs + [iv])[0] == ivs[0];
      assert (ivs + [iv])[1..] == ivs[1..] + [iv];
      CandidatesAppend(ivs[1..], iv, sel);
      calc {
        Candidates(ivs + [iv], sel);
        head + Candidates(ivs[1..] + [iv], sel);
        head + (Candidates(ivs[1..], sel) + tail);
        (head + Candidates(ivs[1..], sel)) + tail;
        Candidates(ivs, sel) + tail;
      }
    }
  }

  /** The position of the first occurrence of `x`. */
  function IndexOf<T(==)>(s: seq<T>, x: T): (k: nat)
    requires x in s
    ensures k < |s| && s[k] == x && x !in s[..k]
  {
    if s[0] == x then 0 else assert s[1..][IndexOf(s[1..], x)] == x; 1 + IndexOf(s[1..], x)
  }

  /** Python's `list.remove`: drop the first element equal to `x`. Its
      `ValueError` for a missing element cannot arise in the viewer, which
      only removes an element it has just found in the list. */
  function RemoveFirst<T(==)>(s: seq<T>, x: T): (r: seq<T>)
    requires x in s
    ensures |r| == |s| - 1
    ensures multiset(r) == multiset(s) - multiset{x}
  {
    assert s == [s[0]] + s[1..];
    if s[0] == x then s[1..]
    else
      assert x in s[1..];
      [s[0]] + RemoveFirst(s[1..], x)
  }

  /** Dropping position `k + 1` of `s` is keeping its head and dropping position `k` of its tail. */
  lemma DropAfterHead<T>(s: seq<T>, k: nat)
    requires k + 1 < |s|
    ensures s[..k + 1] + s[k + 2..] == [s[0]] + (s[1..][..k] + s[1..][k + 1..])
  {
    assert s[..k + 1] == [s[0]] + s[1..][..k];
    assert s[k + 2..] == s[1..][k + 1..];
  }

  /** When the head is `x`, it is the occurrence removed. */
  lemma RemoveAtHead<T>(s: seq<T>, x: T)
    requires |s| > 0 && s[0] == x
    ensures RemoveFirst(s, x) == s[..IndexOf(s, x)] + s[IndexOf(s, x) + 1..]
  {
    assert IndexOf(s, x) == 0;
    assert s[..0] + s[1..] == s[1..];
  }

  /** When the head is not `x`, it stays and `x` is removed from the tail. */
  lemma RemoveAfterHead<T>(s: seq<T>, x: T)
    requires x in s && s[0] != x
    ensures x in s[1..]
    ensures RemoveFirst(s, x) == [s[0]] + RemoveFirst(s[1..], x)
    ensures IndexOf(s, x) == IndexOf(s[1..], x) + 1
  {
    assert s == [s[0]] + s[1..];
  }

  /** The element removed is the one at the first occurrence of `x`; the
      others keep their order. */
  lemma {:induction false} RemoveFirstAt<T>(s: seq<T>, x: T)
    requires x in s
    ensures RemoveFirst(s, x) == s[..IndexOf(s, x)] + s[IndexOf(s, x) + 1..]
  {
    if s[0] == x {
      RemoveAtHead(s, x);
    } else {
      RemoveAfterHead(s, x);
      var k := IndexOf(s[1..], x);
      var rest := RemoveFirst(s[1..], x);
      RemoveFirstAt(s[1..], x);
      assert rest == s[1..][..k] + s[1..][k + 1..];
      DropAfterHead(s, k);
      assert RemoveFirst(s, x) == [s[0]] + rest;
      assert IndexOf(s, x) == k + 1;
    }
  }

  /** The store after a delete at `sel`: a label if exactly one label
      encloses the selection, otherwise a region if exactly one region
      does, otherwise nothing. */
  function AfterDelete(st: Store, sel: Selection): (r: Store)
    ensures |r.regions| <= |st.regions| && |r.labels| <= |st.labels|
    ensures |r.regions| + |r.labels| + 1 >= |st.regions| + |st.labels|
    ensures |Candidates(st.labels, sel)| == 1 ==> r.regions == st.regions && |r.labels| + 1 == |st.labels|
    ensures |Candidates(st.labels, sel)| != 1 ==> r.labels == st.labels
    ensures |Candidates(st.labels, sel)| != 1 && |Candidates(st.regions, sel)| != 1 ==> r == st
  {
    var lc := Candidates(st.labels, sel);
    var rc := Candidates(st.regions, sel);
    if |lc| == 1 then Store(st.regions, RemoveFirst(st.labels, lc[0]))
    else if |rc| == 1 then Store(RemoveFirst(st.regions, rc[0]), st.labels)
    else st
  }

  /** A delete removes at most one interval, from one of the two lists, and adds none. */
  lemma DeleteRemovesAtMostOne(st: Store, sel: Selection)
    ensures var r := AfterDelete(st, sel);
      && multiset(r.regions) <= multiset(st.regions) && multiset(r.labels) <= multiset(st.labels)
      && |r.regions| + |r.labels| + 1 >= |st.regions| + |st.labels|
      && (r.labels == st.labels || r.regions == st.regions)
  {
    var lc := Candidates(st.labels, sel);
    var rc := Candidates(st.regions, sel);
    if |lc| == 1 {
      assert lc[0] in lc;
    } else if |rc| == 1 {
      assert rc[0] in rc;
    }
  }

  /** A list with a single candidate has exactly one enclosing position. */
  lemma {:induction false} SingleEncloser(s: seq<Interval>, sel: Selection) returns (k: nat)
    requires |Candidates(s, sel)| == 1
    ensures k < |s| && Encloses(s[k], sel)
    ensures forall j :: 0 <= j < |s| && j != k ==> !Encloses(s[j], sel)
  {
    if Encloses(s[0], sel) {
      var rest := Candidates(s[1..], sel);
      assert |rest| == 0;
      forall j | 0 < j < |s| ensures !Encloses(s[j], sel) {
        assert s[j] == s[1..][j - 1];
        assert s[j] !in rest;
      }
      k := 0;
    } else {
      var k' := SingleEncloser(s[1..], sel);
      k := k' + 1;
      forall j | 0 <= j < |s| && j != k ensures !Encloses(s[j], sel) {
        if j > 0 { assert s[j] == s[1..][j - 1]; }
      }
    }
  }

  /** ... and removing the first occurrence of the candidate removes that position. */
  lemma UniqueCandidate(s: seq<Interval>, sel: Selection) returns (k: nat)
    requires |Candidates(s, sel)| == 1
    ensures k < |s| && Encloses(s[k], sel) && s[k] == Candidates(s, sel)[0]
    ensures forall j :: 0 <= j < |s| && j != k ==> !Encloses(s[j], sel)
    ensures RemoveFirst(s, s[k]) == s[..k] + s[k + 1..]
  {
    k := SingleEncloser(s, sel);
    var c := Candidates(s, sel)[0];
    assert c in Candidates(s, sel);
    var i := IndexOf(s, c);
    assert i == k;
    RemoveFirstAt(s, c);
  }

  /** A label wins: with exactly one enclosing label, that label alone is
      removed and the regions are left as they are. */
  lemma DeleteLabelFirst(st: Store, sel: Selection) returns (k: nat)
    requires |Candidates(st.labels, sel)| == 1
    ensures k < |st.labels| && Encloses(st.labels[k], sel)
    ensures forall j :: 0 <= j < |st.labels| && j != k ==> !Encloses(st.labels[j], sel)
    ensures AfterDelete(st, sel) == Store(st.regions, st.labels[..k] + st.labels[k + 1..])
  {
    k := UniqueCandidate(st.labels, sel);
  }

  /** Without a unique enclosing label, a unique enclosing region is removed
      alone and the labels are left as they are. */
  lemma DeleteRegionOtherwise(st: Store, sel: Selection) returns (k: nat)
    requires |Candidates(st.labels, sel)| != 1 && |Candidates(st.regions, sel)| == 1
    ensures k < |st.regions| && Encloses(st.regions[k], sel)
    ensures forall j :: 0 <= j < |st.regions| && j != k ==> !Encloses(st.regions[j], sel)
    ensures AfterDelete(st, sel) == Store(st.regions[..k] + st.regions[k + 1..], st.labels)
  {
    k := UniqueCandidate(st.regions, sel);
  }

  /** No enclosing interval, or several of the same kind: nothing changes. */
  lemma DeleteAmbiguous(st: Store, sel: Selection)
    requires |Candidates(st.labels, sel)| != 1 && |Candidates(st.regions, sel)| != 1
    ensures AfterDelete(st, sel) == st
  {
  }

  /** Whatever is removed enclosed the selection: an interval that does not
      enclose it keeps its number of occurrences. */
  lemma DeleteKeepsOthers(st: Store, sel: Selection, iv: Interval)
    requires !Encloses(iv, sel)
    ensures multiset(AfterDelete(st, sel).labels)[iv] == multiset(st.labels)[iv]
    ensures multiset(AfterDelete(st, sel).regions)[iv] == multiset(st.regions)[iv]
  {
    var lc := Candidates(st.labels, sel);
    var rc := Candidates(st.regions, sel);
    if |lc| == 1 {
      assert lc[0] in lc;
    } else if |rc| == 1 {
      assert rc[0] in rc;
    }
  }
}
