/** Runs of the frame allocator, and the frame counts it is not made for. */
module FrameRuns {
  import opened Basics
  import opened FrameSpec
  import opened FrameTheorems

  function GroupLen(f: nat): nat {
    GroupWidth(f % WORD / SUBMAP)
  }

  lemma GroupLenBits(j: nat)
    requires j < WORD && GroupBit(j) == j
    ensures var n := GroupWidth(j / SUBMAP);
            WholeGroup(n) && SUBMAP * ClassOf(n) <= j < SUBMAP * (ClassOf(n) + 1) && j % n == 0
  {
  }

  lemma GroupIsRun(f: nat, x: nat)
    requires GroupBase(f) == f
    ensures InRun(f, GroupLen(f), x) <==> GroupBase(x) == f
  {
    GroupLenBits(f % WORD);
    GroupOf(f / WORD, f % WORD, GroupLen(f), x);
  }

  // ---- runs ----

  datatype Op = Take(n: nat) | Release(f: nat)

  /** The bitmap and the frames handed out by successful searches and not yet released. */
  datatype Sys = Sys(used: set<nat>, live: set<nat>)

  predicate Enabled(y: Sys, op: Op) {
    match op
    case Take(n) => GoodCount(n)
    case Release(f) => f in y.live && GroupBase(f) == f
  }

  function Step(words: nat, y: Sys, op: Op): Sys
    requires Enabled(y, op)
  {
    match op
    case Take(n) =>
      var r := FindAllocFrames(y.used, words, n);
      Sys(r.used, if r.ok then y.live + Elems(r.frames) else y.live)
    case Release(f) => Sys(y.used - Run(f, GroupLen(f)), y.live - Run(f, GroupLen(f)))
  }

  ghost predicate Good(y: Sys) {
    Uniform(y.used) && Uniform(y.live) && y.live <= y.used
  }

  lemma SumUniform(a: set<nat>, b: set<nat>, c: set<nat>)
    requires Uniform(a) && Uniform(a + b) && a !! b && Uniform(c)
    ensures Uniform(c + b)
  {
    forall f: nat ensures f in c + b <==> GroupBase(f) in c + b {
      assert f in a + b <==> GroupBase(f) in a + b;
      assert f in a <==> GroupBase(f) in a;
      assert f in c <==> GroupBase(f) in c;
    }
  }

  /** A step keeps the groups whole, and a search hands out no frame in use. */
  lemma StepGood(words: nat, y: Sys, op: Op)
    requires Good(y) && Enabled(y, op)
    ensures Good(Step(words, y, op))
    ensures op.Take? ==> Elems(FindAllocFrames(y.used, words, op.n).frames) !! y.used
  {
    match op
    case Take(n) =>
      SearchSound(y.used, words, n);
      SumUniform(y.used, Elems(FindAllocFrames(y.used, words, n).frames), y.live);
    case Release(f) =>
      forall x: nat ensures InRun(f, GroupLen(f), x) <==> GroupBase(x) == f {
        GroupIsRun(f, x);
      }
      AddGroupUniform(y.used, f, GroupLen(f));
      AddGroupUniform(y.live, f, GroupLen(f));
  }

  predicate IsRun(words: nat, ys: seq<Sys>, ops: seq<Op>) {
    && |ys| == |ops| + 1
    && (forall i :: 0 <= i < |ops| ==> Enabled(ys[i], ops[i]) && ys[i + 1] == Step(words, ys[i], ops[i]))
  }

  /** In every run groups stay whole, live frames stay marked, and no search hands out a frame
      that is live. */
  lemma {:induction false} RunsGood(words: nat, ys: seq<Sys>, ops: seq<Op>, i: nat)
    requires IsRun(words, ys, ops) && Good(ys[0]) && i < |ys|
    ensures Good(ys[i])
    ensures i < |ops| && ops[i].Take? ==>
              Elems(FindAllocFrames(ys[i].used, words, ops[i].n).frames) !! ys[i].live
  {
    if i > 0 {
      RunsGood(words, ys, ops, i - 1);
      StepGood(words, ys[i - 1], ops[i - 1]);
      assert ys[i - 1 + 1] == Step(words, ys[i - 1], ops[i - 1]);
    }
    if i < |ops| {
      StepGood(words, ys[i], ops[i]);
    }
  }

  // ---- other counts ----

  /** The searches for `n` frames keep groups whole and hand out free frames only. */
  ghost predicate KeepsGroups(n: nat)
    requires n >= 1
  {
    forall used: set<nat>, words: nat :: Uniform(used) ==>
      var r := FindAllocFrames(used, words, n);
      Uniform(r.used) && used !! Elems(r.frames)
  }

  predicate Untouched(used: set<nat>, m: nat) {
    forall f :: f in used ==> f < m
  }

  lemma FreshWord(used: set<nat>, w: nat, n: nat)
    requires Untouched(used, WORD * w) && 1 <= n <= 8
    ensures !WordFull(used, w)
    ensures FindInMap(used, w, n) == Some(SUBMAP * ClassOf(n))
  {
    var c := ClassOf(n);
    assert WORD * w + SUBMAP * c !in used;
    assert WORD * w !in used;
  }

  lemma TornGroup(used: set<nat>, w: nat, r: nat)
    requires Untouched(used, WORD * w) && (r == 3 || 5 <= r <= 7)
    ensures !Uniform(used + Marks(w, SUBMAP * ClassOf(r), r))
  {
    var b := WORD * w + SUBMAP * ClassOf(r);
    ShortRunMarked(w, SUBMAP * ClassOf(r), r);
    var x := b + r;
    var used' := used + Run(b, r);
    assert x / WORD == w && x % WORD == SUBMAP * ClassOf(r) + r;
    assert GroupBase(x) == b;
    assert InRun(b, r, b) && !InRun(b, r, x);
    assert b in used' && x !in used';
  }

  lemma MarksStay(used: set<nat>, w: nat, j: nat, n: nat)
    requires Untouched(used, WORD * w) && n <= WORD && j + n <= WORD
    ensures Untouched(used + Marks(w, j, n), WORD * (w + 1))
  {
    ShortRunMarked(w, if j < WORD then j else 0, if j < WORD then n else 0);
  }

  lemma {:induction false} BadCountTears(used: set<nat>, words: nat, n: nat, i: nat, got: seq<nat>)
    requires n >= 1 && !GoodCount(n) && |got| % 8 == 0 && |got| < n
    requires i + Pieces(n - |got|) == words && Untouched(used, WORD * i)
    ensures !Uniform(FindAlloc(used, words, n, i, got).used)
    decreases words - i
  {
    var cur := Piece(n, |got|);
    FreshWord(used, i, cur);
    var j := SUBMAP * ClassOf(cur);
    var got' := got + Consecutive(WORD * i + j, cur);
    if |got'| < n {
      MarksStay(used, i, j, cur);
      BadCountTears(used + Marks(i, j, cur), words, n, i + 1, got');
    } else {
      TornGroup(used, i, cur);
    }
  }

  /** The counts the allocator is made for are exactly those that keep its groups whole. */
  lemma KeepsGroupsIff(n: nat)
    requires n >= 1
    ensures KeepsGroups(n) <==> GoodCount(n)
  {
    if GoodCount(n) {
      forall used: set<nat>, words: nat | Uniform(used)
        ensures var r := FindAllocFrames(used, words, n); Uniform(r.used) && used !! Elems(r.frames)
      {
        SearchSound(used, words, n);
      }
    } else {
      BadCountTears({}, Pieces(n), n, 0, []);
      var empty: set<nat> := {};
      assert Uniform(empty);
      assert !Uniform(FindAllocFrames(empty, Pieces(n), n).used);
    }
  }

  /** Asking for 3, 4 and again 3 frames hands out two frames twice. */
  lemma TwiceHandedOut(words: nat)
    requires words >= 1
    ensures var a := FindAllocFrames({}, words, 3);
            var b := FindAllocFrames(a.used, words, 4);
            var c := FindAllocFrames(b.used, words, 3);
            && b.frames == [20, 21, 22, 23] && c.frames == [19, 20, 21]
  {
    var none: set<nat> := {};
    ShortRunMarked(0, 16, 3);
    ShortRunMarked(0, 20, 4);
    var a := Run(16, 3);
    assert InRun(16, 3, 16) && !InRun(16, 3, 20) && !InRun(16, 3, 0) && !InRun(16, 3, 19);
    assert FirstFree(none, 0, 3, 16, 24) == Some(16);
    assert 0 !in none && 16 !in none;
    assert FindInMap(none, 0, 3) == Some(16);
    assert FindAllocFrames(none, words, 3).used == a by {
      assert none + Marks(0, 16, 3) == a;
    }
    assert 0 !in a && 20 !in a;
    assert FirstFree(a, 0, 4, 16, 24) == FirstFree(a, 0, 4, 20, 24) == Some(20);
    assert FindInMap(a, 0, 4) == Some(20);
    var b := a + Run(20, 4);
    assert Consecutive(20, 4) == [20, 21, 22, 23];
    assert !InRun(20, 4, 19) && !InRun(20, 4, 0);
    assert 0 !in b && 19 !in b && 16 in b;
    assert FirstFree(b, 0, 3, 16, 24) == FirstFree(b, 0, 3, 19, 24) == Some(19);
    assert FindInMap(b, 0, 3) == Some(19);
    assert Consecutive(19, 3) == [19, 20, 21];
  }
}
