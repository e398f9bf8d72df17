/** The entry array of the shape table as a value: entry states, the probe
    path of a property id, what `search` computes along that path, and the
    invariants the table keeps (one live entry per id, and every live
    entry reachable from the start of its path through entries whose
    collision bit is set). */
module ShapeEntries {
  import opened ShapeHash

  type PropertyId = nat

  /** A shape as the table sees it: the id of the property it describes and
      the property-tree node it is. */
  datatype Shape = Shape(propid: PropertyId, node: nat)

  /** A table entry.  The source packs it into one word: a free entry is
      null, a removed one is the collision bit alone, and a live entry is a
      shape pointer with the collision bit possibly set. */
  datatype Entry =
    | Free
    | Removed
    | Live(shape: Shape, collision: bool)
  {
    /** `hadCollision`: a removed entry always has the bit. */
    predicate HadCollision()
    {
      Removed? || (Live? && collision)
    }

    /** `flagCollision`, applied by `search` to the live entries it passes. */
    function Flagged(): Entry
    {
      if Live? then Live(shape, true) else this
    }

    /** `setPreservingCollision(s)`. */
    function Filled(s: Shape): Entry
    {
      Live(s, HadCollision())
    }

    /** What removal leaves behind: a removed entry if the collision bit is
        set, otherwise a free one. */
    function Vacated(): Entry
    {
      if HadCollision() then Removed else Free
    }
  }

  predicate Matches(e: Entry, id: PropertyId)
  {
    e.Live? && e.shape.propid == id
  }

  /** Table sizes the hash arithmetic supports: `2^log2` entries. */
  predicate Geometry(log2: nat)
  {
    1 <= log2 <= HashBits
  }

  /** The probe path of one hash number: start index, odd step, size. */
  datatype Path = Path(hash1: HashNumber, hash2: HashNumber, log2: nat)

  predicate PathOk(p: Path)
  {
    p.log2 <= HashBits && p.hash1 < Pow2(p.log2) && p.hash2 % 2 == 1
  }

  /** The probe path of `id` in a table of `2^log2` entries. */
  function PathFor(hashOf: PropertyId -> HashNumber, id: PropertyId, log2: nat): (p: Path)
    requires Geometry(log2)
    ensures PathOk(p) && p.log2 == log2
  {
    var hash0 := hashOf(id);
    Path(Hash1(hash0, HashBits - log2), Hash2(hash0, log2, HashBits - log2), log2)
  }

  /** The index visited at step `k` of a path. */
  function At(p: Path, k: nat): (r: nat)
    requires PathOk(p)
    ensures r < Pow2(p.log2)
  {
    Probe(p.hash1, p.hash2, p.log2, k)
  }

  /** One more step of a path is the 32-bit subtraction of the step
      masked to the table size, `hash1 -= hash2; hash1 &= sizeMask`. */
  lemma AtNext(p: Path, k: nat)
    requires PathOk(p)
    ensures At(p, k + 1) == Mask((At(p, k) - p.hash2) % HashLimit, p.log2)
  {
  }

  /** Every index of the table lies on every path. */
  lemma AtReaches(p: Path, f: nat)
    requires PathOk(p) && f < Pow2(p.log2)
    ensures exists k :: 0 <= k < Pow2(p.log2) && At(p, k) == f
  {
    ProbeReaches(p.hash1, p.hash2, p.log2, f);
    var k :| 0 <= k < Pow2(p.log2) && Probe(p.hash1, p.hash2, p.log2, k) == f;
    assert At(p, k) == f;
  }

  // ---------------------------------------------------------------------
  // What `search` computes.

  /** A probe for `id` along `path` stops at step `s`: every entry before
      it is neither free nor live for `id`, and the entry at step `s` is
      one of the two. */
  predicate StopsAt(es: seq<Entry>, path: Path, id: PropertyId, s: nat)
    requires PathOk(path) && |es| == Pow2(path.log2)
  {
    (forall j | 0 <= j < s :: !es[At(path, j)].Free? && !Matches(es[At(path, j)], id))
    && (es[At(path, s)].Free? || Matches(es[At(path, s)], id))
  }

  /** The first step in `[j, s)` whose entry is removed, or `s` if none
      is. */
  function FirstRemoved(es: seq<Entry>, path: Path, j: nat, s: nat): (r: nat)
    requires PathOk(path) && |es| == Pow2(path.log2) && j <= s
    ensures j <= r <= s
    ensures r < s ==> es[At(path, r)].Removed?
    decreases s - j
  {
    if j == s then s
    else if es[At(path, j)].Removed? then j
    else FirstRemoved(es, path, j + 1, s)
  }

  /** No step before the first removed one is removed. */
  lemma {:induction false} FirstRemovedBefore(es: seq<Entry>, path: Path, j: nat, s: nat, i: nat)
    requires PathOk(path) && |es| == Pow2(path.log2) && j <= s && j <= i < FirstRemoved(es, path, j, s)
    ensures !es[At(path, i)].Removed?
    decreases s - j
  {
    if j < i {
      FirstRemovedBefore(es, path, j + 1, s, i);
    }
  }

  /** The index `search` returns when its probe stops at step `s`: the
      entry found there, except that when adding and the probe stopped at
      a free entry, the first removed entry it passed. */
  function SearchIndex(es: seq<Entry>, path: Path, id: PropertyId, adding: bool, s: nat): (r: nat)
    requires PathOk(path) && |es| == Pow2(path.log2)
    ensures r < |es|
  {
    if adding && es[At(path, s)].Free? then At(path, FirstRemoved(es, path, 0, s)) else At(path, s)
  }

  /** Probing one step further moves the first removed step only when
      none was found before. */
  lemma {:induction false} FirstRemovedSnoc(es: seq<Entry>, path: Path, j: nat, s: nat)
    requires PathOk(path) && |es| == Pow2(path.log2) && j <= s
    ensures FirstRemoved(es, path, j, s + 1)
            == if FirstRemoved(es, path, j, s) < s then FirstRemoved(es, path, j, s)
               else if es[At(path, s)].Removed? then s else s + 1
    decreases s - j
  {
    if j < s && !es[At(path, j)].Removed? {
      FirstRemovedSnoc(es, path, j + 1, s);
    }
  }

  /** The entries after `search` has set the collision bit of the live
      entries at the first `s` steps. */
  function FlagPath(es: seq<Entry>, path: Path, s: nat): (r: seq<Entry>)
    requires PathOk(path) && |es| == Pow2(path.log2)
    ensures |r| == |es|
  {
    if s == 0 then es
    else
      var e := FlagPath(es, path, s - 1);
      var p := At(path, s - 1);
      e[p := e[p].Flagged()]
  }

  /** One more step of flagging: the live entry at step `s` gets its
      collision bit. */
  lemma FlagPathNext(es: seq<Entry>, path: Path, s: nat)
    requires PathOk(path) && |es| == Pow2(path.log2)
    ensures var e := FlagPath(es, path, s);
            FlagPath(es, path, s + 1) == e[At(path, s) := e[At(path, s)].Flagged()]
  {
  }

  lemma UpdateSame(es: seq<Entry>, q: nat)
    requires q < |es|
    ensures es[q := es[q]] == es
  {
  }

  ghost predicate OnPath(path: Path, q: nat, s: nat)
    requires PathOk(path)
  {
    exists j :: 0 <= j < s && At(path, j) == q
  }

  /** Flagging a path sets the collision bit of the live entries on its
      first `s` steps and changes nothing else. */
  lemma {:induction false} FlagPathEntries(es: seq<Entry>, path: Path, s: nat)
    requires PathOk(path) && |es| == Pow2(path.log2)
    ensures forall q | 0 <= q < |es| ::
              FlagPath(es, path, s)[q] == if OnPath(path, q, s) then es[q].Flagged() else es[q]
  {
    if s > 0 {
      FlagPathEntries(es, path, s - 1);
      var p := At(path, s - 1);
      forall q | 0 <= q < |es|
        ensures FlagPath(es, path, s)[q] == if OnPath(path, q, s) then es[q].Flagged() else es[q]
      {
        if q == p {
          assert OnPath(path, q, s);
        } else if OnPath(path, q, s) {
          var j :| 0 <= j < s && At(path, j) == q;
          assert OnPath(path, q, s - 1);
        } else {
          assert forall j | 0 <= j < s :: At(path, j) != q;
        }
      }
    }
  }

  lemma FlagPathOnPath(es: seq<Entry>, path: Path, s: nat, j: nat)
    requires PathOk(path) && |es| == Pow2(path.log2) && j < s
    ensures FlagPath(es, path, s)[At(path, j)] == es[At(path, j)].Flagged()
  {
    FlagPathEntries(es, path, s);
    assert OnPath(path, At(path, j), s);
  }

  lemma FlagPathFlagsOnly(es: seq<Entry>, path: Path, s: nat)
    requires PathOk(path) && |es| == Pow2(path.log2)
    ensures FlagsOnly(es, FlagPath(es, path, s))
  {
    FlagPathEntries(es, path, s);
  }

  // ---------------------------------------------------------------------
  // The probe loop of `search`, one step at a time.

  /** `search` has examined steps `0..t` of `path` without stopping: none of
      them is free or live for `id`, `cur` is the table after the flagging
      so far, and `haveRemoved`/`firstRemoved` record the first removed
      entry seen. */
  ghost predicate Probing(es0: seq<Entry>, cur: seq<Entry>, path: Path, id: PropertyId, adding: bool,
                          t: nat, haveRemoved: bool, firstRemoved: nat)
  {
    && PathOk(path) && |es0| == Pow2(path.log2)
    && (forall j | 0 <= j <= t :: !es0[At(path, j)].Free? && !Matches(es0[At(path, j)], id))
    && cur == (if adding then FlagPath(es0, path, t + 1) else es0)
    && haveRemoved == (FirstRemoved(es0, path, 0, t + 1) <= t)
    && (haveRemoved ==> firstRemoved == At(path, FirstRemoved(es0, path, 0, t + 1)))
  }

  /** The first probe, when it does not stop the search. */
  lemma ProbingStart(es0: seq<Entry>, path: Path, id: PropertyId, adding: bool)
    requires PathOk(path) && |es0| == Pow2(path.log2)
    requires var e := es0[At(path, 0)]; !e.Free? && !Matches(e, id)
    ensures var p := At(path, 0);
            Probing(es0, if adding then es0[p := es0[p].Flagged()] else es0, path, id, adding,
                    0, es0[p].Removed?, p)
  {
    FlagPathNext(es0, path, 0);
  }

  /** While probing, the table differs from the original only by collision
      bits. */
  lemma ProbingFlagsOnly(es0: seq<Entry>, cur: seq<Entry>, path: Path, id: PropertyId, adding: bool,
                         t: nat, haveRemoved: bool, firstRemoved: nat)
    requires Probing(es0, cur, path, id, adding, t, haveRemoved, firstRemoved)
    ensures FlagsOnly(es0, cur)
  {
    FlagPathFlagsOnly(es0, path, t + 1);
  }

  /** A probe past an entry that is neither free nor live for `id`: a live
      entry gets its collision bit when adding, and a removed one is
      remembered if it is the first. */
  lemma ProbingNext(es0: seq<Entry>, cur: seq<Entry>, path: Path, id: PropertyId, adding: bool,
                    t: nat, haveRemoved: bool, firstRemoved: nat)
    requires Probing(es0, cur, path, id, adding, t, haveRemoved, firstRemoved)
    requires var e := es0[At(path, t + 1)]; !e.Free? && !Matches(e, id)
    ensures var p := At(path, t + 1);
            Probing(es0, if adding then cur[p := cur[p].Flagged()] else cur, path, id, adding, t + 1,
                    haveRemoved || es0[p].Removed?, if haveRemoved then firstRemoved else p)
  {
    FirstRemovedSnoc(es0, path, 0, t + 1);
    FlagPathNext(es0, path, t + 1);
  }

  /** The probe stops at a free entry or at the entry live for `id`: the
      search result is the one `SearchIndex` names. */
  lemma ProbingStop(es0: seq<Entry>, cur: seq<Entry>, path: Path, id: PropertyId, adding: bool,
                    t: nat, haveRemoved: bool, firstRemoved: nat)
    requires Probing(es0, cur, path, id, adding, t, haveRemoved, firstRemoved)
    requires var e := es0[At(path, t + 1)]; e.Free? || Matches(e, id)
    ensures StopsAt(es0, path, id, t + 1)
    ensures SearchIndex(es0, path, id, adding, t + 1)
            == if adding && haveRemoved && es0[At(path, t + 1)].Free? then firstRemoved else At(path, t + 1)
    ensures cur == if adding then FlagPath(es0, path, t + 1) else es0
  {
    FirstRemovedSnoc(es0, path, 0, t + 1);
  }

  // ---------------------------------------------------------------------
  // Contents and counts.

  /** The shapes the table holds. */
  ghost function Contents(es: seq<Entry>): set<Shape>
  {
    set q | 0 <= q < |es| && es[q].Live? :: es[q].shape
  }

  function CountLive(es: seq<Entry>): (n: nat)
    ensures n <= |es|
  {
    if es == [] then 0 else CountLive(es[..|es| - 1]) + (if es[|es| - 1].Live? then 1 else 0)
  }

  function CountRemoved(es: seq<Entry>): (n: nat)
    ensures n <= |es|
  {
    if es == [] then 0 else CountRemoved(es[..|es| - 1]) + (if es[|es| - 1].Removed? then 1 else 0)
  }

  /** When fewer entries are live or removed than the table has, one of
      them is free. */
  lemma {:induction false} FreeExists(es: seq<Entry>)
    requires CountLive(es) + CountRemoved(es) < |es|
    ensures exists q :: 0 <= q < |es| && es[q].Free?
  {
    var n := |es| - 1;
    if !es[n].Free? {
      var pre := es[..n];
      FreeExists(pre);
      var q :| 0 <= q < |pre| && pre[q].Free?;
      assert es[q] == pre[q];
    }
  }

  /** On every path some step reaches a free entry. */
  lemma FreeStep(es: seq<Entry>, path: Path) returns (k: nat)
    requires PathOk(path) && |es| == Pow2(path.log2)
    requires CountLive(es) + CountRemoved(es) < |es|
    ensures es[At(path, k)].Free?
  {
    FreeExists(es);
    var f :| 0 <= f < |es| && es[f].Free?;
    AtReaches(path, f);
    k :| 0 <= k < Pow2(path.log2) && At(path, k) == f;
  }

  /** A table all of whose entries are free holds no shape and counts
      nothing. */
  lemma {:induction false} AllFree(es: seq<Entry>)
    requires forall q | 0 <= q < |es| :: es[q].Free?
    ensures Contents(es) == {} && CountLive(es) == 0 && CountRemoved(es) == 0
  {
    if es != [] {
      var n := |es| - 1;
      AllFree(es[..n]);
      assert es[n].Free?;
    }
  }

  /** A freshly allocated table keeps both invariants. */
  lemma FreshTable(es: seq<Entry>, hashOf: PropertyId -> HashNumber, log2: nat)
    requires Geometry(log2) && |es| == Pow2(log2)
    requires forall q | 0 <= q < |es| :: es[q].Free?
    ensures Contents(es) == {} && CountLive(es) == 0 && CountRemoved(es) == 0
    ensures Unique(es) && Chained(es, hashOf, log2)
  {
    AllFree(es);
  }

  /** A table whose removed count is zero has no removed entry. */
  lemma {:induction false} NoneRemoved(es: seq<Entry>)
    requires CountRemoved(es) == 0
    ensures forall q | 0 <= q < |es| :: !es[q].Removed?
  {
    if es != [] {
      var n := |es| - 1;
      NoneRemoved(es[..n]);
      assert forall q | 0 <= q < n :: es[q] == es[..n][q];
    }
  }

  /** A prefix holds no more live entries than the whole. */
  lemma {:induction false} CountLivePrefix(es: seq<Entry>, p: nat)
    requires p <= |es|
    ensures CountLive(es[..p]) <= CountLive(es)
    decreases |es| - p
  {
    if p < |es| {
      CountLivePrefix(es, p + 1);
      assert es[..p + 1][..p] == es[..p];
    } else {
      assert es[..p] == es;
    }
  }

  /** Extending a prefix by one entry adds that entry's shape and share of
      the live count. */
  lemma PrefixStep(es: seq<Entry>, p: nat)
    requires p < |es|
    ensures Contents(es[..p + 1]) == Contents(es[..p]) + (if es[p].Live? then {es[p].shape} else {})
    ensures CountLive(es[..p + 1]) == CountLive(es[..p]) + (if es[p].Live? then 1 else 0)
  {
    assert es[..p + 1] == es[..p] + [es[p]];
    assert es[..p + 1][..p] == es[..p];
    ContentsSnoc(es[..p], es[p]);
  }

  /** Replacing one entry changes each count by that entry's share. */
  lemma {:induction false} CountsUpdate(es: seq<Entry>, q: nat, e: Entry)
    requires q < |es|
    ensures CountLive(es[q := e]) + (if es[q].Live? then 1 else 0) == CountLive(es) + (if e.Live? then 1 else 0)
    ensures CountRemoved(es[q := e]) + (if es[q].Removed? then 1 else 0) == CountRemoved(es) + (if e.Removed? then 1 else 0)
    decreases |es|
  {
    var n := |es| - 1;
    var es' := es[q := e];
    if q == n {
      assert es'[..n] == es[..n];
    } else {
      assert es'[..n] == es[..n][q := e];
      CountsUpdate(es[..n], q, e);
    }
  }

  predicate SameKinds(es: seq<Entry>, es': seq<Entry>)
  {
    |es| == |es'|
    && forall q | 0 <= q < |es| :: es[q].Live? == es'[q].Live? && es[q].Removed? == es'[q].Removed?
  }

  lemma {:induction false} CountsSameKinds(es: seq<Entry>, es': seq<Entry>)
    requires SameKinds(es, es')
    ensures CountLive(es) == CountLive(es') && CountRemoved(es) == CountRemoved(es')
    decreases |es|
  {
    if es != [] {
      var n := |es| - 1;
      assert SameKinds(es[..n], es'[..n]);
      CountsSameKinds(es[..n], es'[..n]);
    }
  }

  /** Appending an entry adds its shape, if any. */
  lemma ContentsSnoc(es: seq<Entry>, e: Entry)
    ensures Contents(es + [e]) == Contents(es) + (if e.Live? then {e.shape} else {})
  {
    var es' := es + [e];
    forall y | y in Contents(es')
      ensures y in Contents(es) + (if e.Live? then {e.shape} else {})
    {
      var q :| 0 <= q < |es'| && es'[q].Live? && es'[q].shape == y;
      if q < |es| {
        assert es[q] == es'[q];
      }
    }
    forall y | y in Contents(es)
      ensures y in Contents(es')
    {
      var q :| 0 <= q < |es| && es[q].Live? && es[q].shape == y;
      assert es'[q] == es[q];
    }
    if e.Live? {
      assert es'[|es|] == e;
    }
  }

  lemma ContentsUpdate(es: seq<Entry>, q: nat, e: Entry)
    requires q < |es| && Unique(es)
    ensures Contents(es[q := e])
            == (Contents(es) - (if es[q].Live? then {es[q].shape} else {})) + (if e.Live? then {e.shape} else {})
  {
    var es' := es[q := e];
    forall y | y in Contents(es')
      ensures y in (Contents(es) - (if es[q].Live? then {es[q].shape} else {})) + (if e.Live? then {e.shape} else {})
    {
      var p :| 0 <= p < |es'| && es'[p].Live? && es'[p].shape == y;
      if p != q {
        assert es[p] == es'[p];
      }
    }
    forall y | y in Contents(es) && !(es[q].Live? && y == es[q].shape)
      ensures y in Contents(es')
    {
      var p :| 0 <= p < |es| && es[p].Live? && es[p].shape == y;
      assert es'[p] == es[p];
    }
    if e.Live? {
      assert es'[q] == e;
    }
  }

  // ---------------------------------------------------------------------
  // Table invariants.

  /** At most one live entry per property id. */
  ghost predicate Unique(es: seq<Entry>)
  {
    forall p, q | 0 <= p < |es| && 0 <= q < |es| && es[p].Live? && es[q].Live?
                  && es[p].shape.propid == es[q].shape.propid :: p == q
  }

  /** The live entry at `q` sits at some step of its id's path, and every
      earlier step of that path has the collision bit. */
  ghost predicate ChainedAt(es: seq<Entry>, hashOf: PropertyId -> HashNumber, log2: nat, q: nat)
    requires Geometry(log2) && |es| == Pow2(log2) && q < |es| && es[q].Live?
  {
    var path := PathFor(hashOf, es[q].shape.propid, log2);
    exists k: nat :: At(path, k) == q && forall j | 0 <= j < k :: es[At(path, j)].HadCollision()
  }

  ghost predicate Chained(es: seq<Entry>, hashOf: PropertyId -> HashNumber, log2: nat)
    requires Geometry(log2) && |es| == Pow2(log2)
  {
    forall q {:trigger ChainedAt(es, hashOf, log2, q)} | 0 <= q < |es| && es[q].Live? :: ChainedAt(es, hashOf, log2, q)
  }

  /** `es2` differs from `es` only by collision bits set on live entries. */
  predicate FlagsOnly(es: seq<Entry>, es2: seq<Entry>)
  {
    |es2| == |es| && forall q | 0 <= q < |es| :: es2[q] == es[q] || es2[q] == es[q].Flagged()
  }

  /** Setting collision bits keeps the shapes, the counts and both
      invariants. */
  lemma FlagsOnlyPreserves(es: seq<Entry>, es2: seq<Entry>, hashOf: PropertyId -> HashNumber, log2: nat)
    requires Geometry(log2) && |es| == Pow2(log2) && FlagsOnly(es, es2)
    ensures Contents(es2) == Contents(es)
    ensures CountLive(es2) == CountLive(es) && CountRemoved(es2) == CountRemoved(es)
    ensures Unique(es) ==> Unique(es2)
    ensures Chained(es, hashOf, log2) ==> Chained(es2, hashOf, log2)
  {
    assert SameKinds(es, es2);
    CountsSameKinds(es, es2);
    forall y | y in Contents(es2) ensures y in Contents(es) {
      var q :| 0 <= q < |es2| && es2[q].Live? && es2[q].shape == y;
      assert es[q].Live? && es[q].shape == y;
    }
    forall y | y in Contents(es) ensures y in Contents(es2) {
      var q :| 0 <= q < |es| && es[q].Live? && es[q].shape == y;
      assert es2[q].Live? && es2[q].shape == y;
    }
    if Chained(es, hashOf, log2) {
      forall q | 0 <= q < |es2| && es2[q].Live? ensures ChainedAt(es2, hashOf, log2, q) {
        assert ChainedAt(es, hashOf, log2, q);
        var path := PathFor(hashOf, es[q].shape.propid, log2);
        var k: nat :| At(path, k) == q && forall j | 0 <= j < k :: es[At(path, j)].HadCollision();
        assert forall j | 0 <= j < k :: es2[At(path, j)].HadCollision();
      }
    }
  }

  /** Setting collision bits changes no entry's shape. */
  lemma FlagsOnlyMatches(es: seq<Entry>, es2: seq<Entry>, id: PropertyId)
    requires FlagsOnly(es, es2)
    ensures forall p | 0 <= p < |es2| :: Matches(es2[p], id) == Matches(es[p], id)
  {
  }

  /** An id none of whose shapes the table holds has no live entry. */
  lemma AbsentId(es: seq<Entry>, id: PropertyId)
    requires forall y | y in Contents(es) :: y.propid != id
    ensures forall q | 0 <= q < |es| :: !Matches(es[q], id)
  {
    forall q | 0 <= q < |es| && es[q].Live? ensures es[q].shape.propid != id {
      assert es[q].shape in Contents(es);
    }
  }

  /** An id some of whose shapes the table holds has a live entry. */
  lemma PresentId(es: seq<Entry>, y: Shape) returns (q: nat)
    requires y in Contents(es)
    ensures q < |es| && es[q].Live? && es[q].shape == y
  {
    q :| 0 <= q < |es| && es[q].Live? && es[q].shape == y;
  }

  /** In a table with unique ids, the shapes before a live entry all have
      other ids than it. */
  lemma PrefixIds(es: seq<Entry>, p: nat)
    requires Unique(es) && p < |es| && es[p].Live?
    ensures forall y | y in Contents(es[..p]) :: y.propid != es[p].shape.propid
  {
    forall y | y in Contents(es[..p]) ensures y.propid != es[p].shape.propid {
      var j :| 0 <= j < p && es[..p][j].Live? && es[..p][j].shape == y;
      assert es[j] == es[..p][j];
    }
  }

  /** The probe for an id that has a live entry stops at that entry, and
      `search` returns it whether or not it is adding; every entry the
      probe passed on the way has the collision bit (the debug check of
      `search` on a hit). */
  lemma SearchFinds(es: seq<Entry>, hashOf: PropertyId -> HashNumber, log2: nat, id: PropertyId,
                    q: nat, s: nat, adding: bool)
    requires Geometry(log2) && |es| == Pow2(log2) && Unique(es) && Chained(es, hashOf, log2)
    requires q < |es| && Matches(es[q], id)
    requires StopsAt(es, PathFor(hashOf, id, log2), id, s)
    ensures At(PathFor(hashOf, id, log2), s) == q
    ensures SearchIndex(es, PathFor(hashOf, id, log2), id, adding, s) == q
    ensures forall j | 0 <= j < s :: es[At(PathFor(hashOf, id, log2), j)].HadCollision()
  {
    var path := PathFor(hashOf, id, log2);
    assert ChainedAt(es, hashOf, log2, q);
    var k: nat :| At(path, k) == q && forall j | 0 <= j < k :: es[At(path, j)].HadCollision();
    if s > k {
      assert false;
    }
    if s < k {
      var p := At(path, s);
      assert es[p].HadCollision() && Matches(es[p], id);
      assert p == q;
    }
  }

  /** The probe for an id with no live entry stops at a free entry, and
      `search` returns an entry that holds no shape: that free entry, or
      when adding, the first removed entry before it. */
  lemma SearchMisses(es: seq<Entry>, path: Path, id: PropertyId, s: nat, adding: bool)
    requires PathOk(path) && |es| == Pow2(path.log2)
    requires forall q | 0 <= q < |es| :: !Matches(es[q], id)
    requires StopsAt(es, path, id, s)
    ensures es[At(path, s)].Free?
    ensures var r := SearchIndex(es, path, id, adding, s);
            !es[r].Live? && (es[r].Removed? ==> adding)
  {
  }

  /** The entries after `search(x.propid, true)` stopped at step `s` and
      `x` was stored, collision bit kept, at the index it returned. */
  function Inserted(es: seq<Entry>, hashOf: PropertyId -> HashNumber, log2: nat, x: Shape, s: nat): (r: seq<Entry>)
    requires Geometry(log2) && |es| == Pow2(log2)
    ensures |r| == |es|
  {
    var path := PathFor(hashOf, x.propid, log2);
    var q := SearchIndex(es, path, x.propid, true, s);
    var flagged := FlagPath(es, path, s);
    flagged[q := flagged[q].Filled(x)]
  }

  /** The index `search` returns for an absent id is the first removed
      entry of the path, or the free entry the probe stopped at, and
      flagging has not touched it. */
  lemma InsertTarget(es: seq<Entry>, hashOf: PropertyId -> HashNumber, log2: nat, x: Shape, s: nat)
    requires Geometry(log2) && |es| == Pow2(log2)
    requires forall q | 0 <= q < |es| :: !Matches(es[q], x.propid)
    requires StopsAt(es, PathFor(hashOf, x.propid, log2), x.propid, s)
    ensures var path := PathFor(hashOf, x.propid, log2);
            var q := SearchIndex(es, path, x.propid, true, s);
            && q == At(path, FirstRemoved(es, path, 0, s))
            && !es[q].Live? && FlagPath(es, path, s)[q] == es[q]
  {
    var path := PathFor(hashOf, x.propid, log2);
    FlagPathFlagsOnly(es, path, s);
  }

  /** A live entry stays chained when its shape stays and no collision bit
      is cleared anywhere. */
  lemma ChainedTransfer(es: seq<Entry>, es2: seq<Entry>, hashOf: PropertyId -> HashNumber, log2: nat, p: nat)
    requires Geometry(log2) && |es| == Pow2(log2) && |es2| == |es|
    requires p < |es| && es[p].Live? && es2[p].Live? && es2[p].shape == es[p].shape
    requires forall a | 0 <= a < |es| && es[a].HadCollision() :: es2[a].HadCollision()
    requires ChainedAt(es, hashOf, log2, p)
    ensures ChainedAt(es2, hashOf, log2, p)
  {
    var path := PathFor(hashOf, es[p].shape.propid, log2);
    var k: nat :| At(path, k) == p && forall j | 0 <= j < k :: es[At(path, j)].HadCollision();
    forall j | 0 <= j < k ensures es2[At(path, j)].HadCollision() {
      assert es[At(path, j)].HadCollision();
    }
  }

  /** A live entry is chained as soon as one step of its path reaches it
      through entries with the collision bit. */
  lemma ChainedWitness(es: seq<Entry>, hashOf: PropertyId -> HashNumber, log2: nat, q: nat, k: nat)
    requires Geometry(log2) && |es| == Pow2(log2) && q < |es| && es[q].Live?
    requires var path := PathFor(hashOf, es[q].shape.propid, log2);
             At(path, k) == q && forall j | 0 <= j < k :: es[At(path, j)].HadCollision()
    ensures ChainedAt(es, hashOf, log2, q)
  {
  }

  /** The inserted entry is chained: every step of its path before it was
      passed by the probe, which left the collision bit there. */
  lemma InsertChainedTarget(es: seq<Entry>, hashOf: PropertyId -> HashNumber, log2: nat, x: Shape, s: nat)
    requires Geometry(log2) && |es| == Pow2(log2)
    requires forall q | 0 <= q < |es| :: !Matches(es[q], x.propid)
    requires StopsAt(es, PathFor(hashOf, x.propid, log2), x.propid, s)
    ensures var es2 := Inserted(es, hashOf, log2, x, s);
            var q := SearchIndex(es, PathFor(hashOf, x.propid, log2), x.propid, true, s);
            es2[q].Live? && es2[q].shape == x && ChainedAt(es2, hashOf, log2, q)
  {
    var path := PathFor(hashOf, x.propid, log2);
    var q := SearchIndex(es, path, x.propid, true, s);
    var es2 := Inserted(es, hashOf, log2, x, s);
    var r := FirstRemoved(es, path, 0, s);
    InsertTarget(es, hashOf, log2, x, s);
    assert At(path, r) == q && !es[q].Live? && es2[q] == Live(x, es[q].HadCollision());
    assert forall j | 0 <= j < r :: es2[At(path, j)].HadCollision() by {
      forall j | 0 <= j < r ensures es2[At(path, j)].HadCollision() {
        var a := At(path, j);
        FirstRemovedBefore(es, path, 0, s, j);
        FlagPathOnPath(es, path, s, j);
        assert es[a].Live? && a != q;
        assert es2[a] == FlagPath(es, path, s)[a];
      }
    }
    ChainedWitness(es2, hashOf, log2, q, r);
  }

  /** Filling one entry keeps the table chained when the new entry is
      itself chained and keeps the collision bit it had. */
  lemma ChainedFill(es: seq<Entry>, hashOf: PropertyId -> HashNumber, log2: nat, q: nat, e: Entry)
    requires Geometry(log2) && |es| == Pow2(log2) && Chained(es, hashOf, log2)
    requires q < |es| && e.Live? && (es[q].HadCollision() ==> e.HadCollision())
    requires ChainedAt(es[q := e], hashOf, log2, q)
    ensures Chained(es[q := e], hashOf, log2)
  {
    var es2 := es[q := e];
    forall p | 0 <= p < |es2| && es2[p].Live? ensures ChainedAt(es2, hashOf, log2, p) {
      if p != q {
        assert ChainedAt(es, hashOf, log2, p);
        ChainedTransfer(es, es2, hashOf, log2, p);
      }
    }
  }

  lemma InsertChained(es: seq<Entry>, hashOf: PropertyId -> HashNumber, log2: nat, x: Shape, s: nat)
    requires Geometry(log2) && |es| == Pow2(log2) && Chained(es, hashOf, log2)
    requires forall q | 0 <= q < |es| :: !Matches(es[q], x.propid)
    requires StopsAt(es, PathFor(hashOf, x.propid, log2), x.propid, s)
    ensures Chained(Inserted(es, hashOf, log2, x, s), hashOf, log2)
  {
    var path := PathFor(hashOf, x.propid, log2);
    var q := SearchIndex(es, path, x.propid, true, s);
    var flagged := FlagPath(es, path, s);
    FlagPathFlagsOnly(es, path, s);
    FlagsOnlyPreserves(es, flagged, hashOf, log2);
    InsertChainedTarget(es, hashOf, log2, x, s);
    ChainedFill(flagged, hashOf, log2, q, flagged[q].Filled(x));
  }

  /** Storing a shape in an entry that holds none keeps ids unique when no
      live entry has its id. */
  lemma UniqueFill(es: seq<Entry>, q: nat, x: Shape, c: bool)
    requires Unique(es) && q < |es| && !es[q].Live?
    requires forall p | 0 <= p < |es| :: !Matches(es[p], x.propid)
    ensures Unique(es[q := Live(x, c)])
  {
    var es2 := es[q := Live(x, c)];
    forall p, p2 | 0 <= p < |es2| && 0 <= p2 < |es2| && es2[p].Live? && es2[p2].Live?
                   && es2[p].shape.propid == es2[p2].shape.propid
      ensures p == p2
    {
      if p != q && p2 != q {
        assert es[p].Live? && es[p2].Live?;
      }
    }
  }

  lemma InsertUnique(es: seq<Entry>, hashOf: PropertyId -> HashNumber, log2: nat, x: Shape, s: nat)
    requires Geometry(log2) && |es| == Pow2(log2) && Unique(es)
    requires forall q | 0 <= q < |es| :: !Matches(es[q], x.propid)
    requires StopsAt(es, PathFor(hashOf, x.propid, log2), x.propid, s)
    ensures Unique(Inserted(es, hashOf, log2, x, s))
  {
    var path := PathFor(hashOf, x.propid, log2);
    var q := SearchIndex(es, path, x.propid, true, s);
    var flagged := FlagPath(es, path, s);
    FlagPathFlagsOnly(es, path, s);
    FlagsOnlyPreserves(es, flagged, hashOf, log2);
    InsertTarget(es, hashOf, log2, x, s);
    FlagsOnlyMatches(es, flagged, x.propid);
    UniqueFill(flagged, q, x, flagged[q].HadCollision());
  }

  /** Adding a shape whose id has no live entry, at the index `search`
      returned, keeps both invariants and adds exactly that shape; a
      removed entry it reuses leaves the removed count. */
  lemma Insert(es: seq<Entry>, hashOf: PropertyId -> HashNumber, log2: nat, x: Shape, s: nat)
    requires Geometry(log2) && |es| == Pow2(log2) && Unique(es) && Chained(es, hashOf, log2)
    requires forall q | 0 <= q < |es| :: !Matches(es[q], x.propid)
    requires StopsAt(es, PathFor(hashOf, x.propid, log2), x.propid, s)
    ensures var es2 := Inserted(es, hashOf, log2, x, s);
            var q := SearchIndex(es, PathFor(hashOf, x.propid, log2), x.propid, true, s);
            && Unique(es2) && Chained(es2, hashOf, log2)
            && Contents(es2) == Contents(es) + {x}
            && CountLive(es2) == CountLive(es) + 1
            && CountRemoved(es2) + (if es[q].Removed? then 1 else 0) == CountRemoved(es)
  {
    var path := PathFor(hashOf, x.propid, log2);
    var q := SearchIndex(es, path, x.propid, true, s);
    var flagged := FlagPath(es, path, s);
    InsertTarget(es, hashOf, log2, x, s);
    InsertChained(es, hashOf, log2, x, s);
    InsertUnique(es, hashOf, log2, x, s);
    FlagPathFlagsOnly(es, path, s);
    FlagsOnlyPreserves(es, flagged, hashOf, log2);
    var e := flagged[q].Filled(x);
    ContentsUpdate(flagged, q, e);
    CountsUpdate(flagged, q, e);
  }

  /** The entries after `search(x.propid, true)` stopped at step `s` and
      `x` was stored at the index it returned unless that entry already
      holds a shape. */
  function Stored(es: seq<Entry>, hashOf: PropertyId -> HashNumber, log2: nat, x: Shape, s: nat): (r: seq<Entry>)
    requires Geometry(log2) && |es| == Pow2(log2)
    ensures |r| == |es|
  {
    var path := PathFor(hashOf, x.propid, log2);
    var q := SearchIndex(es, path, x.propid, true, s);
    var flagged := FlagPath(es, path, s);
    if flagged[q].Live? then flagged else flagged[q := flagged[q].Filled(x)]
  }

  /** Storing a shape keeps both invariants; it adds the shape exactly when
      no shape with its id is held, and otherwise changes no shape. */
  lemma Store(es: seq<Entry>, hashOf: PropertyId -> HashNumber, log2: nat, x: Shape, s: nat)
    requires Geometry(log2) && |es| == Pow2(log2) && Unique(es) && Chained(es, hashOf, log2)
    requires StopsAt(es, PathFor(hashOf, x.propid, log2), x.propid, s)
    ensures var es2 := Stored(es, hashOf, log2, x, s);
            && Unique(es2) && Chained(es2, hashOf, log2)
            && Contents(es2) == (if exists y | y in Contents(es) :: y.propid == x.propid
                                 then Contents(es) else Contents(es) + {x})
            && CountLive(es2) <= CountLive(es) + 1
            && CountRemoved(es2) <= CountRemoved(es)
  {
    var path := PathFor(hashOf, x.propid, log2);
    var flagged := FlagPath(es, path, s);
    FlagPathFlagsOnly(es, path, s);
    FlagsOnlyPreserves(es, flagged, hashOf, log2);
    if exists y | y in Contents(es) :: y.propid == x.propid {
      var y :| y in Contents(es) && y.propid == x.propid;
      var q := PresentId(es, y);
      SearchFinds(es, hashOf, log2, x.propid, q, s, true);
      assert Stored(es, hashOf, log2, x, s) == flagged;
    } else {
      AbsentId(es, x.propid);
      SearchMisses(es, path, x.propid, s, true);
      Insert(es, hashOf, log2, x, s);
      assert Stored(es, hashOf, log2, x, s) == Inserted(es, hashOf, log2, x, s);
    }
  }

  /** Removal of a live entry keeps both invariants and drops exactly its
      shape; a removed entry is left only where the collision bit was. */
  lemma Remove(es: seq<Entry>, hashOf: PropertyId -> HashNumber, log2: nat, q: nat)
    requires Geometry(log2) && |es| == Pow2(log2) && Unique(es) && Chained(es, hashOf, log2)
    requires q < |es| && es[q].Live?
    ensures var es2 := es[q := es[q].Vacated()];
            && Unique(es2) && Chained(es2, hashOf, log2)
            && Contents(es2) == Contents(es) - {es[q].shape}
            && CountLive(es2) + 1 == CountLive(es)
            && CountRemoved(es2) == CountRemoved(es) + (if es[q].collision then 1 else 0)
  {
    var es2 := es[q := es[q].Vacated()];
    assert Chained(es2, hashOf, log2) by {
      forall p | 0 <= p < |es2| && es2[p].Live? ensures ChainedAt(es2, hashOf, log2, p) {
        ChainedTransfer(es, es2, hashOf, log2, p);
      }
    }
    assert Unique(es2);
    ContentsUpdate(es, q, es[q].Vacated());
    CountsUpdate(es, q, es[q].Vacated());
  }

  // ---------------------------------------------------------------------
  // The shapes `init` keeps.

  predicate HasId(shapes: seq<Shape>, id: PropertyId)
  {
    exists i :: 0 <= i < |shapes| && shapes[i].propid == id
  }

  /** The shapes of a lineage listed youngest first that no younger shape
      with the same id shadows. */
  ghost function Youngest(shapes: seq<Shape>): set<Shape>
  {
    set i | 0 <= i < |shapes| && !HasId(shapes[..i], shapes[i].propid) :: shapes[i]
  }

  lemma YoungestSnoc(shapes: seq<Shape>, x: Shape)
    ensures Youngest(shapes + [x]) == if HasId(shapes, x.propid) then Youngest(shapes) else Youngest(shapes) + {x}
  {
    var s2 := shapes + [x];
    assert s2[..|shapes|] == shapes;
    forall i | 0 <= i < |shapes| ensures s2[..i] == shapes[..i] {
    }
    forall y | y in Youngest(s2)
      ensures y in (if HasId(shapes, x.propid) then Youngest(shapes) else Youngest(shapes) + {x})
    {
      var i :| 0 <= i < |s2| && !HasId(s2[..i], s2[i].propid) && s2[i] == y;
      if i < |shapes| {
        assert shapes[i] == y && shapes[..i] == s2[..i];
      }
    }
    forall y | y in Youngest(shapes) ensures y in Youngest(s2) {
      var i :| 0 <= i < |shapes| && !HasId(shapes[..i], shapes[i].propid) && shapes[i] == y;
      assert s2[i] == y && s2[..i] == shapes[..i];
    }
    if !HasId(shapes, x.propid) {
      assert s2[|shapes|] == x;
      assert x in Youngest(s2);
    }
  }

  /** An id occurs in the lineage if and only if one of the shapes kept for
      it has that id. */
  lemma {:induction false} YoungestIds(shapes: seq<Shape>, id: PropertyId)
    ensures HasId(shapes, id) <==> exists y :: y in Youngest(shapes) && y.propid == id
    decreases |shapes|
  {
    if shapes != [] {
      var n := |shapes| - 1;
      var pre, x := shapes[..n], shapes[n];
      assert shapes == pre + [x];
      YoungestSnoc(pre, x);
      YoungestIds(pre, id);
      if HasId(shapes, id) && !HasId(pre, id) {
        var i :| 0 <= i < |shapes| && shapes[i].propid == id;
        assert x in Youngest(shapes);
      }
      if exists y :: y in Youngest(shapes) && y.propid == id {
        var y :| y in Youngest(shapes) && y.propid == id;
        var i :| 0 <= i < |shapes| && !HasId(shapes[..i], shapes[i].propid) && shapes[i] == y;
      }
    }
  }
}
