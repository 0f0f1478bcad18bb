/** Merging data segments into one variable, and where cross-references to data end up. */
module Segments {
  import opened Options
  import opened Sorting
  import opened Words

  /** A segment: its original address, the zero bytes put in front of its data, and the data. */
  datatype Segment = Segment(ea: nat, padding: nat, data: seq<Byte>) {
    /** The initializer of the segment's variable. */
    function Init(): seq<Byte> {
      Zeros(padding) + data
    }

    function End(): nat {
      ea + padding + |data|
    }
  }

  function Zeros(n: nat): (z: seq<Byte>)
    ensures |z| == n && forall i | 0 <= i < n :: z[i] == 0
  {
    seq(n, _ => 0)
  }

  /** The members of the merged variable, a packed structure, and which one each segment became. */
  datatype Merged = Merged(min: nat, values: seq<seq<Byte>>, indices: map<Segment, nat>) {
    function Image(): seq<Byte> {
      Flatten(values)
    }

    /** Where a member starts. */
    function Offset(i: nat): nat
      requires i <= |values|
    {
      |Flatten(values[..i])|
    }
  }

  function Flatten(values: seq<seq<Byte>>): seq<Byte> {
    if values == [] then [] else Flatten(values[..|values| - 1]) + values[|values| - 1]
  }

  const BY_ADDRESS := (s: Segment) => s.ea

  /** No segment, with its padding, runs into the next one. */
  predicate Apart(segs: seq<Segment>) {
    forall i | 0 < i < |segs| && segs[i] != segs[i - 1] :: segs[i - 1].End() <= segs[i].ea
  }

  /** Member `i` of the merged variable is this segment, as far from the start as it was from the
      first page. */
  predicate Placed(m: Merged, s: Segment) {
    && s in m.indices && m.indices[s] < |m.values|
    && m.values[m.indices[s]] == s.Init()
    && m.min + m.Offset(m.indices[s]) == s.ea
  }

  lemma FlattenAppend(values: seq<seq<Byte>>, v: seq<Byte>)
    ensures Flatten(values + [v]) == Flatten(values) + v
  {
    assert (values + [v])[..|values|] == values;
  }

  lemma OffsetStays(m: Merged, m': Merged, i: nat)
    requires m.values <= m'.values && i < |m.values|
    ensures m'.Offset(i) == m.Offset(i) && m'.values[i] == m.values[i]
  {
    assert m'.values[..i] == m.values[..i];
  }

  lemma PlacedStays(m: Merged, m': Merged, s: Segment)
    requires Placed(m, s) && m'.min == m.min && m.values <= m'.values
    requires s in m'.indices && m'.indices[s] == m.indices[s]
    ensures Placed(m', s)
  {
    OffsetStays(m, m', m.indices[s]);
  }

  /** Behind all members so far comes one more. */
  function Add(m: Merged, start: nat, s: Segment): Merged {
    var values := if start < s.ea then m.values + [Zeros(s.ea - start)] else m.values;
    Merged(m.min, values + [s.Init()], if s in m.indices then m.indices else m.indices[s := |values|])
  }

  lemma AddPlaces(m: Merged, start: nat, s: Segment)
    requires m.min <= start <= s.ea && |Flatten(m.values)| == start - m.min
    requires s in m.indices ==> Placed(m, s)
    ensures Placed(Add(m, start, s), s) && m.values <= Add(m, start, s).values
    ensures |Flatten(Add(m, start, s).values)| == s.End() - m.min
  {
    var m' := Add(m, start, s);
    var values := if start < s.ea then m.values + [Zeros(s.ea - start)] else m.values;
    if start < s.ea {
      FlattenAppend(m.values, Zeros(s.ea - start));
    }
    assert |Flatten(values)| == s.ea - m.min;
    FlattenAppend(values, s.Init());
    assert m'.values[..|values|] == values;
    if s in m.indices {
      PlacedStays(m, m', s);
    }
  }

  /** Byte `k` of the merged variable belongs to the data of a segment. */
  predicate InData(m: Merged, s: Segment, k: nat) {
    s.ea + s.padding <= m.min + k < s.ea + s.padding + |s.data|
  }

  /** Every byte that does not is zero. */
  ghost predicate Blank(m: Merged) {
    forall k: nat | k < |m.Image()| :: m.Image()[k] == 0 || exists s :: s in m.indices && InData(m, s, k)
  }

  lemma AddImage(m: Merged, start: nat, s: Segment)
    requires m.min <= start <= s.ea && |Flatten(m.values)| == start - m.min
    ensures Add(m, start, s).Image() == m.Image() + Zeros(s.ea - start) + (Zeros(s.padding) + s.data)
  {
    var values := if start < s.ea then m.values + [Zeros(s.ea - start)] else m.values;
    if start < s.ea {
      FlattenAppend(m.values, Zeros(s.ea - start));
    } else {
      assert m.Image() + Zeros(0) == m.Image();
    }
    FlattenAppend(values, s.Init());
  }

  lemma AddBlank(m: Merged, start: nat, s: Segment)
    requires m.min <= start <= s.ea && |Flatten(m.values)| == start - m.min && Blank(m)
    ensures Blank(Add(m, start, s))
  {
    hide Flatten;
    var m' := Add(m, start, s);
    AddImage(m, start, s);
    var was, filler, lead := |m.Image()|, s.ea - start, s.padding;
    forall k: nat | k < |m'.Image()|
      ensures m'.Image()[k] == 0 || exists t :: t in m'.indices && InData(m', t, k)
    {
      if k < was {
        assert m'.Image()[k] == m.Image()[k];
        if m.Image()[k] != 0 {
          var t :| t in m.indices && InData(m, t, k);
          assert t in m'.indices && InData(m', t, k);
        }
      } else if k < was + filler {
        assert m'.Image()[k] == Zeros(filler)[k - was];
      } else if k < was + filler + lead {
        assert m'.Image()[k] == Zeros(lead)[k - was - filler];
      } else {
        assert s in m'.indices && InData(m', s, k);
      }
    }
  }

  /** Merge the segments; none when two of them overlap. */
  method MergeSegments(segments: seq<Segment>) returns (r: Option<Merged>)
    requires segments != []
    ensures r.Some? <==> Apart(Sort(segments, BY_ADDRESS))
    ensures r.Some? ==> forall s | s in segments :: r.value.min <= s.ea && Placed(r.value, s)
    ensures r.Some? ==> r.value.min % 4096 == 0 && exists s :: s in segments && r.value.min == s.ea - s.ea % 4096
    ensures r.Some? ==> Blank(r.value) && (forall s :: s in r.value.indices <==> s in segments)
    ensures r.Some? ==> exists s :: s in segments && r.value.min + |r.value.Image()| == s.End()
  {
    hide Sort, SortedBy, SoFar, Add, Apart, Placed, Blank, Flatten, Segment.End, Merged.Image;
    var segs := Sort(segments, BY_ADDRESS);
    SortMeans(segments, BY_ADDRESS);
    var start: nat := segs[0].ea - segs[0].ea % 4096;
    var m := Merged(start, [], map[]);
    MergeNone(segs, m);
    NoneApart(segs);
    for i := 0 to |segs|
      invariant SoFar(m, start, segs, i) && Apart(segs[..i])
      invariant i > 0 ==> start == segs[i - 1].End()
    {
      var s := segs[i];
      ApartStep(segs, i);
      if i == 0 || s != segs[i - 1] {
        if start > s.ea {
          MergeStart(m, start, segs, i);
          return None;
        }
        MergeNext(m, start, segs, i);
        m := Add(m, start, s);
        start := s.End();
      } else {
        MergeSkip(m, start, segs, i);
      }
    }
    assert segs[..|segs|] == segs;
    MergeDone(m, start, segments, segs);
    r := Some(m);
  }

  /** The first segments are merged, up to `start`. */
  ghost predicate SoFar(m: Merged, start: nat, segs: seq<Segment>, i: nat)
    requires segs != [] && i <= |segs|
  {
    && m.min == segs[0].ea - segs[0].ea % 4096
    && start == (if i == 0 then m.min else segs[i - 1].End())
    && start >= m.min && |Flatten(m.values)| == start - m.min
    && (forall s | s in m.indices :: Placed(m, s) && s in segs)
    && (forall k | 0 <= k < i :: segs[k] in m.indices)
    && Blank(m)
  }

  lemma MergeNone(segs: seq<Segment>, m: Merged)
    requires segs != [] && m == Merged(segs[0].ea - segs[0].ea % 4096, [], map[])
    ensures SoFar(m, m.min, segs, 0)
  {
  }

  lemma MergeStart(m: Merged, start: nat, segs: seq<Segment>, i: nat)
    requires segs != [] && i <= |segs| && SoFar(m, start, segs, i)
    ensures i == 0 ==> start <= segs[0].ea
  {
  }

  lemma MergeNext(m: Merged, start: nat, segs: seq<Segment>, i: nat)
    requires i < |segs| && SoFar(m, start, segs, i) && start <= segs[i].ea
    ensures SoFar(Add(m, start, segs[i]), segs[i].End(), segs, i + 1)
  {
    hide Placed, Flatten, Add, Blank;
    var s := segs[i];
    AddPlaces(m, start, s);
    AllStay(m, start, s);
    AddBlank(m, start, s);
    Added(m, start, s);
  }

  lemma MergeSkip(m: Merged, start: nat, segs: seq<Segment>, i: nat)
    requires 0 < i < |segs| && SoFar(m, start, segs, i) && segs[i] == segs[i - 1]
    ensures SoFar(m, start, segs, i + 1)
  {
    hide Placed, Flatten, Blank;
  }

  lemma MergeDone(m: Merged, start: nat, segments: seq<Segment>, segs: seq<Segment>)
    requires segs != [] && SortedBy(segs, BY_ADDRESS) && (forall s :: s in segs <==> s in segments)
    requires SoFar(m, start, segs, |segs|)
    ensures forall s | s in segments :: m.min <= s.ea && Placed(m, s)
    ensures m.min % 4096 == 0 && exists s :: s in segments && m.min == s.ea - s.ea % 4096
    ensures Blank(m) && (forall s :: s in m.indices <==> s in segments)
    ensures exists s :: s in segments && m.min + |m.Image()| == s.End()
  {
    hide Placed, Flatten, Blank;
    AllPlaced(segments, segs, m);
    assert segs[|segs| - 1] in segments && m.min + |m.Image()| == segs[|segs| - 1].End();
  }

  /** Two segments have no address in common. */
  predicate Disjoint(s: Segment, t: Segment) {
    s.End() <= t.ea || t.End() <= s.ea
  }

  /** A segment without bytes shares its address with no other. */
  ghost predicate EmptyAlone(segments: seq<Segment>) {
    forall s, t | s in segments && t in segments && s != t && s.ea == t.ea :: s.ea < s.End()
  }

  /** In the sorted list each segment ends before every later one, not just before the next. */
  lemma {:induction false} ApartFar(segs: seq<Segment>, i: nat, j: nat)
    requires Apart(segs) && i < j < |segs| && segs[i] != segs[j]
    ensures segs[i].End() <= segs[j].ea
    decreases j
  {
    if segs[j - 1] == segs[j] {
      ApartFar(segs, i, j - 1);
    } else if segs[i] != segs[j - 1] {
      ApartFar(segs, i, j - 1);
    }
  }

  lemma ApartDisjoint(segs: seq<Segment>, s: Segment, t: Segment)
    requires Apart(segs) && s in segs && t in segs && s != t
    ensures Disjoint(s, t)
  {
    var i :| 0 <= i < |segs| && segs[i] == s;
    var j :| 0 <= j < |segs| && segs[j] == t;
    if i < j { ApartFar(segs, i, j); } else { ApartFar(segs, j, i); }
  }

  /** So merging fails exactly if some two segments overlap. */
  lemma OverlapIff(segments: seq<Segment>)
    requires EmptyAlone(segments)
    ensures Apart(Sort(segments, BY_ADDRESS))
            <==> forall s, t | s in segments && t in segments && s != t :: Disjoint(s, t)
  {
    hide Sort, Apart, Disjoint, EmptyAlone, SortedBy;
    var segs := Sort(segments, BY_ADDRESS);
    SortMeans(segments, BY_ADDRESS);
    if Apart(segs) {
      forall s, t | s in segments && t in segments && s != t
        ensures Disjoint(s, t)
      {
        ApartDisjoint(segs, s, t);
      }
    } else {
      var i := NeighboursMeet(segments, segs);
      assert segs[i - 1] in segs && segs[i] in segs;
    }
  }

  /** Two neighbours that fail the test overlap. */
  lemma NeighboursMeet(segments: seq<Segment>, segs: seq<Segment>) returns (i: nat)
    requires EmptyAlone(segments) && SortedBy(segs, BY_ADDRESS) && (forall s | s in segs :: s in segments)
    requires !Apart(segs)
    ensures 0 < i < |segs| && segs[i] != segs[i - 1] && !Disjoint(segs[i - 1], segs[i])
  {
    i :| 0 < i < |segs| && segs[i] != segs[i - 1] && segs[i - 1].End() > segs[i].ea;
    var s, t := segs[i - 1], segs[i];
    assert s in segs && t in segs;
    assert BY_ADDRESS(s) <= BY_ADDRESS(t);
  }

  /** A segment without bytes at the address of another: whether they can be merged depends on which
      is sorted first. */
  lemma EmptyTie(ea: nat, padding: nat, data: seq<Byte>)
    requires padding + |data| > 0
    ensures
      var full, empty := Segment(ea, padding, data), Segment(ea, 0, []);
      && Disjoint(full, empty)
      && Apart(Sort([empty, full], BY_ADDRESS)) && !Apart(Sort([full, empty], BY_ADDRESS))
  {
    var full, empty := Segment(ea, padding, data), Segment(ea, 0, []);
    SortPair(empty, full);
    SortPair(full, empty);
    assert [full, empty][1] != [full, empty][0] && [full, empty][0].End() > [full, empty][1].ea;
  }

  lemma SortPair(s: Segment, t: Segment)
    requires s.ea <= t.ea
    ensures Sort([s, t], BY_ADDRESS) == [s, t]
  {
    assert [s, t][1..] == [t] && [t][1..] == [];
    assert Sort([t], BY_ADDRESS) == Insert(t, [], BY_ADDRESS) == [t];
  }

  lemma AllPlaced(segments: seq<Segment>, segs: seq<Segment>, m: Merged)
    requires segs != [] && SortedBy(segs, BY_ADDRESS) && forall s :: s in segs <==> s in segments
    requires m.min == segs[0].ea - segs[0].ea % 4096
    requires (forall k | 0 <= k < |segs| :: segs[k] in m.indices) && forall s | s in m.indices :: Placed(m, s)
    ensures forall s | s in segments :: m.min <= s.ea && Placed(m, s)
    ensures m.min % 4096 == 0 && exists s :: s in segments && m.min == s.ea - s.ea % 4096
  {
    hide Placed;
    forall s | s in segments
      ensures m.min <= s.ea && Placed(m, s)
    {
      var k :| 0 <= k < |segs| && segs[k] == s;
      assert BY_ADDRESS(segs[0]) <= BY_ADDRESS(segs[k]);
    }
    assert segs[0] in segments;
  }

  lemma Added(m: Merged, start: nat, s: Segment)
    ensures Add(m, start, s).min == m.min
    ensures forall t :: t in Add(m, start, s).indices <==> t in m.indices || t == s
  {
  }

  lemma AllStay(m: Merged, start: nat, s: Segment)
    requires m.min <= start <= s.ea && |Flatten(m.values)| == start - m.min
    requires forall t | t in m.indices :: Placed(m, t)
    ensures forall t | t in Add(m, start, s).indices :: Placed(Add(m, start, s), t)
  {
    AddPlaces(m, start, s);
    forall t | t in Add(m, start, s).indices && t != s
      ensures Placed(Add(m, start, s), t)
    {
      PlacedStays(m, Add(m, start, s), t);
    }
  }

  lemma NoneApart(segs: seq<Segment>)
    ensures Apart(segs[..0])
  {
  }

  lemma ApartStep(segs: seq<Segment>, i: nat)
    requires i < |segs|
    ensures Apart(segs[..i + 1])
            <==> Apart(segs[..i]) && (i > 0 && segs[i] != segs[i - 1] ==> segs[i - 1].End() <= segs[i].ea)
    ensures Apart(segs) ==> Apart(segs[..i + 1])
  {
    var a, b := segs[..i], segs[..i + 1];
    assert forall k | 0 <= k < i :: a[k] == segs[k] == b[k];
    assert b[i] == segs[i];
    if Apart(b) {
      forall k | 0 < k < |a| && a[k] != a[k - 1]
        ensures a[k - 1].End() <= a[k].ea
      {
        assert b[k] == a[k] && b[k - 1] == a[k - 1];
      }
    }
  }

  // ---------- the image ----------

  lemma {:induction false} MemberInImage(values: seq<seq<Byte>>, i: nat)
    requires i < |values|
    ensures |Flatten(values[..i])| + |values[i]| <= |Flatten(values)|
    ensures Flatten(values)[|Flatten(values[..i])|..][..|values[i]|] == values[i]
    decreases |values|
  {
    var init := values[..|values| - 1];
    if i == |values| - 1 {
    } else {
      MemberInImage(init, i);
      assert init[..i] == values[..i];
      var f, g := Flatten(init), Flatten(values);
      var o, n := |Flatten(values[..i])|, |values[i]|;
      assert g[o..][..n] == f[o..][..n];
    }
  }

  /** Every byte of a merged segment is found as far from the start of the merged variable as it was
      from the first page, behind the segment's padding. */
  lemma BytesMoveTogether(m: Merged, s: Segment, j: nat)
    requires Placed(m, s) && m.min <= s.ea && j < |s.data|
    ensures s.ea - m.min + s.padding + j < |m.Image()|
    ensures m.Image()[s.ea - m.min + s.padding + j] == s.data[j]
  {
    var i, o := m.indices[s], s.ea - m.min;
    MemberInImage(m.values, i);
    assert m.Image()[o..][..|s.Init()|][s.padding + j] == s.Init()[s.padding + j] == s.data[j];
  }

  // ---------- cross-references ----------

  /** Where a reference to address `t` of a segment points, the merged variable being at `base`. */
  function Resolved(m: Merged, base: nat, s: Segment, t: nat): int
    requires Placed(m, s) && s.ea <= t
  {
    base + m.Offset(m.indices[s]) + (t - s.ea) + s.padding
  }

  /** It is moved with everything else exactly when its segment has no padding. */
  lemma XrefMovesIff(m: Merged, base: nat, s: Segment, t: nat)
    requires Placed(m, s) && m.min <= s.ea <= t
    ensures Resolved(m, base, s, t) == base + (t - m.min) <==> s.padding == 0
  {
    assert m.Offset(m.indices[s]) == s.ea - m.min;
  }

  /** Two references stay as far apart as they were exactly when their segments are padded alike. */
  lemma DistanceKeptIff(m: Merged, base: nat, s: Segment, t: nat, s': Segment, t': nat)
    requires Placed(m, s) && Placed(m, s') && s.ea <= t && s'.ea <= t'
    ensures Resolved(m, base, s, t) - Resolved(m, base, s', t') == t - t' <==> s.padding == s'.padding
  {
    assert m.min + m.Offset(m.indices[s]) == s.ea && m.min + m.Offset(m.indices[s']) == s'.ea;
  }

  /** And a reference to a byte of the data finds that byte. */
  lemma XrefFindsByte(m: Merged, base: nat, s: Segment, t: nat)
    requires Placed(m, s) && m.min <= s.ea <= t < s.ea + |s.data|
    ensures 0 <= Resolved(m, base, s, t) - base < |m.Image()|
    ensures m.Image()[Resolved(m, base, s, t) - base] == s.data[t - s.ea]
  {
    BytesMoveTogether(m, s, t - s.ea);
    assert m.Offset(m.indices[s]) == s.ea - m.min;
  }
}
