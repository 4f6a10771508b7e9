/** The frame bitmap's guarantees over every run of searches and group releases. */
module FrameTheorems {
  import opened Basics
  import opened FrameSpec

  /** Counts the submaps are made for: the last piece is a whole group. */
  predicate GoodCount(n: nat) {
    n >= 1 && (n % 8 == 0 || n % 8 == 1 || n % 8 == 2 || n % 8 == 4)
  }

  predicate WholeGroup(n: nat) {
    n == 1 || n == 2 || n == 4 || n == 8
  }

  /** The first bit of the group of bit `j`. */
  function GroupBit(j: nat): (r: nat)
    requires j < WORD
    ensures r <= j
  {
    if j < 8 then j
    else if j < 16 then j - j % 2
    else if j < 24 then j - j % 4
    else 24
  }

  /** The first frame of the group of frame `f`. */
  function GroupBase(f: nat): nat {
    WORD * (f / WORD) + GroupBit(f % WORD)
  }

  /** Every group is used as a whole or free as a whole. */
  ghost predicate Uniform(used: set<nat>) {
    forall f: nat :: f in used <==> GroupBase(f) in used
  }

  lemma GroupBits(j: nat, n: nat, y: nat)
    requires WholeGroup(n) && SUBMAP * ClassOf(n) <= j < SUBMAP * (ClassOf(n) + 1) && j % n == 0
    requires y < WORD
    ensures j + n <= WORD
    ensures j <= y < j + n <==> GroupBit(y) == j
  {
  }

  lemma GroupOf(w: nat, j: nat, n: nat, x: nat)
    requires WholeGroup(n) && SUBMAP * ClassOf(n) <= j < SUBMAP * (ClassOf(n) + 1) && j % n == 0
    ensures j + n <= WORD
    ensures InRun(WORD * w + j, n, x) <==> GroupBase(x) == WORD * w + j
  {
    GroupBits(j, n, x % WORD);
    assert x == WORD * (x / WORD) + x % WORD;
    if x / WORD < w {
      assert WORD * (x / WORD) + WORD <= WORD * w;
    } else if x / WORD > w {
      assert WORD * w + WORD <= WORD * (x / WORD);
    }
  }

  lemma StepsAligned(j: nat, n: nat, x: nat)
    requires WholeGroup(n) && j % n == 0
    ensures (j + n) % n == 0
    ensures j <= x < j + n && x % n == 0 ==> x == j
  {
  }

  /** The search stops at a group's first bit, and misses none. */
  lemma {:induction false} FirstFreeAligned(used: set<nat>, w: nat, n: nat, j: nat, hi: nat, x: nat)
    requires WholeGroup(n) && j % n == 0
    ensures var r := FirstFree(used, w, n, j, hi);
            match r
            case Some(y) => y % n == 0
            case None => j <= x < hi && x % n == 0 ==> WORD * w + x in used
    decreases hi - j
  {
    StepsAligned(j, n, x);
    if j < hi && WORD * w + j in used {
      FirstFreeAligned(used, w, n, j + n, hi, x);
    }
  }

  lemma SubmapStart(n: nat)
    requires WholeGroup(n)
    ensures SUBMAP * ClassOf(n) % n == 0
  {
  }

  lemma GroupInSubmap(w: nat, c: nat, n: nat, x: nat)
    requires WholeGroup(n) && c == ClassOf(n)
    requires WORD * w + SUBMAP * c <= x < WORD * w + SUBMAP * (c + 1)
    ensures var b := GroupBase(x) - WORD * w;
            SUBMAP * c <= b < SUBMAP * (c + 1) && b % n == 0
  {
    var y := x - WORD * w;
    assert x / WORD == w && x % WORD == y;
  }

  /** A word has no group to offer exactly when its submap is full. */
  lemma NothingFoundIff(used: set<nat>, w: nat, n: nat)
    requires Uniform(used) && WholeGroup(n)
    ensures FindInMap(used, w, n).None? <==> SubmapFull(used, w, ClassOf(n))
  {
    var c := ClassOf(n);
    SubmapStart(n);
    if FindInMap(used, w, n).None? && !SubmapFull(used, w, c) {
      var x :| WORD * w + SUBMAP * c <= x < WORD * w + SUBMAP * (c + 1) && x !in used;
      GroupInSubmap(w, c, n, x);
      FirstFreeAligned(used, w, n, SUBMAP * c, SUBMAP * (c + 1), GroupBase(x) - WORD * w);
    }
  }

  lemma AddGroupUniform(used: set<nat>, b: nat, n: nat)
    requires Uniform(used)
    requires forall x: nat :: InRun(b, n, x) <==> GroupBase(x) == b
    ensures Uniform(used + Run(b, n))
    ensures Uniform(used - Run(b, n))
  {
    forall f: nat ensures InRun(b, n, f) <==> InRun(b, n, GroupBase(f)) {
      BaseIdempotent(f);
    }
  }

  lemma BaseIdempotent(f: nat)
    ensures GroupBase(GroupBase(f)) == GroupBase(f)
  {
    var y := GroupBit(f % WORD);
    assert (WORD * (f / WORD) + y) / WORD == f / WORD;
    assert (WORD * (f / WORD) + y) % WORD == y;
    BitIdempotent(f % WORD);
  }

  lemma BitIdempotent(j: nat)
    requires j < WORD
    ensures GroupBit(GroupBit(j)) == GroupBit(j)
  {
  }

  /** A search that succeeds in a word stops at the first bit of a group of the right size. */
  lemma FoundBit(used: set<nat>, w: nat, n: nat, j: nat)
    requires WholeGroup(n) && FindInMap(used, w, n) == Some(j)
    ensures SUBMAP * ClassOf(n) <= j < SUBMAP * (ClassOf(n) + 1) && j % n == 0
    ensures WORD * w + j !in used && j + n <= WORD
    ensures forall x: nat :: InRun(WORD * w + j, n, x) <==> GroupBase(x) == WORD * w + j
  {
    var c := ClassOf(n);
    SubmapStart(n);
    FirstFreeAligned(used, w, n, SUBMAP * c, SUBMAP * (c + 1), j);
    forall x: nat ensures InRun(WORD * w + j, n, x) <==> GroupBase(x) == WORD * w + j {
      GroupOf(w, j, n, x);
    }
    GroupOf(w, j, n, j);
  }

  /** A group found in a word is a whole group, entirely free before. */
  lemma PieceServed(used: set<nat>, w: nat, n: nat, j: nat, b: nat)
    requires Uniform(used) && WholeGroup(n) && FindInMap(used, w, n) == Some(j) && b == WORD * w + j
    ensures b + n <= WORD * w + WORD
    ensures Marks(w, j, n) == Run(b, n)
    ensures Run(b, n) !! used
    ensures Uniform(used + Run(b, n))
  {
    FoundBit(used, w, n, j);
    ShortRunMarked(w, j, n);
    AddGroupUniform(used, b, n);
  }

  // ---- the whole search ----

  predicate Increasing(s: seq<nat>) {
    forall i, j :: 0 <= i < j < |s| ==> s[i] < s[j]
  }

  predicate Below(s: seq<nat>, m: nat) {
    forall i :: 0 <= i < |s| ==> s[i] < m
  }

  function Elems(s: seq<nat>): set<nat> {
    set x | x in s
  }

  lemma NewPiece(got: seq<nat>, f: nat, n: nat)
    requires Increasing(got) && Below(got, f)
    ensures var got' := got + Consecutive(f, n);
            && Increasing(got') && Below(got', f + n) && Elems(got') == Elems(got) + Run(f, n)
  {
    var got' := got + Consecutive(f, n);
    forall x | x in Run(f, n) ensures x in got' {
      assert got'[|got| + (x - f)] == x;
    }
  }

  predicate PieceStart(n: nat, k: nat) {
    GoodCount(n) && k < n && k % 8 == 0
  }

  lemma PieceIsGroup(n: nat, k: nat)
    requires PieceStart(n, k)
    ensures WholeGroup(Piece(n, k))
    ensures k + Piece(n, k) <= n
    ensures k + Piece(n, k) < n ==> PieceStart(n, k + Piece(n, k))
  {
  }

  /** `got` are frames below `m`, free in `used0` and used in `used`, and nothing else changed. */
  ghost predicate SearchOk(used: set<nat>, used0: set<nat>, m: nat, got: seq<nat>) {
    && Uniform(used)
    && Increasing(got) && Below(got, m)
    && used == used0 + Elems(got) && used0 !! Elems(got)
  }

  lemma GroupTaken(used: set<nat>, used0: set<nat>, m: nat, got: seq<nat>, b: nat, n: nat, m': nat)
    requires SearchOk(used, used0, m, got) && m <= b && b + n <= m'
    requires Run(b, n) !! used && Uniform(used + Run(b, n))
    ensures SearchOk(used + Run(b, n), used0, m', got + Consecutive(b, n))
  {
    LaterBound(got, m, b);
    NewPiece(got, b, n);
    LaterBound(got + Consecutive(b, n), b + n, m');
  }

  lemma PieceTaken(used: set<nat>, used0: set<nat>, w: nat, got: seq<nat>, n: nat, j: nat)
    requires SearchOk(used, used0, WORD * w, got) && WholeGroup(n) && FindInMap(used, w, n) == Some(j)
    ensures SearchOk(used + Marks(w, j, n), used0, WORD * (w + 1), got + Consecutive(WORD * w + j, n))
  {
    var b := WORD * w + j;
    PieceServed(used, w, n, j, b);
    GroupTaken(used, used0, WORD * w, got, b, n, WORD * (w + 1));
  }

  lemma {:induction false} FindAllocSound(used: set<nat>, used0: set<nat>, words: nat, n: nat, i: nat, got: seq<nat>)
    requires i <= words && PieceStart(n, |got|) && SearchOk(used, used0, WORD * i, got)
    ensures var r := FindAlloc(used, words, n, i, got);
            && SearchOk(r.used, used0, WORD * words, r.frames)
            && |r.frames| <= n && (r.ok <==> |r.frames| == n)
    decreases words - i
  {
    if i < words {
      PieceIsGroup(n, |got|);
      var cur := Piece(n, |got|);
      var found := FindInMap(used, i, cur);
      if WordFull(used, i) || found.None? {
        FindAllocSound(used, used0, words, n, i + 1, got);
      } else {
        PieceTaken(used, used0, i, got, cur, found.value);
        var got' := got + Consecutive(WORD * i + found.value, cur);
        if |got'| < n {
          FindAllocSound(used + Marks(i, found.value, cur), used0, words, n, i + 1, got');
        } else {
          LaterBound(got', WORD * (i + 1), WORD * words);
        }
      }
    }
  }

  lemma LaterBound(s: seq<nat>, m: nat, m': nat)
    requires Below(s, m) && m <= m'
    ensures Below(s, m')
  {
  }

  /** A search marks exactly the frames it hands out.  They are increasing, hence distinct, lie
      below the limit, and none was used; a success hands out `n`; groups stay uniform. */
  lemma SearchSound(used: set<nat>, words: nat, n: nat)
    requires Uniform(used) && GoodCount(n)
    ensures var r := FindAllocFrames(used, words, n);
            && Uniform(r.used)
            && Increasing(r.frames) && Below(r.frames, WORD * words)
            && r.used == used + Elems(r.frames) && used !! Elems(r.frames)
            && |r.frames| <= n && (r.ok <==> |r.frames| == n)
  {
    FindAllocSound(used, used, words, n, 0, []);
  }

  /** Whatever the count, a search never hands out more frames than asked for, and it succeeds
      exactly if it hands out all. */
  lemma {:induction false} FoundCount(used: set<nat>, words: nat, n: nat, i: nat, got: seq<nat>)
    requires i <= words && |got| < n
    ensures var r := FindAlloc(used, words, n, i, got); |r.frames| <= n && (r.ok <==> |r.frames| == n)
    decreases words - i
  {
    if i < words {
      var cur := Piece(n, |got|);
      var found := FindInMap(used, i, cur);
      if WordFull(used, i) || found.None? {
        FoundCount(used, words, n, i + 1, got);
      } else if |got| + cur < n {
        FoundCount(used + Marks(i, found.value, cur), words, n, i + 1, got + Consecutive(WORD * i + found.value, cur));
      }
    }
  }

  // ---- exactly when a search fails ----

  function Pieces(n: nat): nat {
    (n + 7) / 8
  }

  /** `ws` names one word per piece, in order, whose submap for that piece is not full. */
  predicate Serves(used: set<nat>, words: nat, i: nat, n: nat, k: nat, ws: seq<nat>)
    requires k <= n
  {
    && |ws| == Pieces(n - k)
    && Increasing(ws)
    && (forall t :: 0 <= t < |ws| ==> i <= ws[t] < words)
    && (forall t :: 0 <= t < |ws| && k + 8 * t < n ==>
          !SubmapFull(used, ws[t], ClassOf(Piece(n, k + 8 * t))))
  }

  lemma LaterSubmaps(used: set<nat>, w: nat, j: nat, n: nat, v: nat, c: nat)
    requires j + n <= WORD && w < v && c < 4
    ensures SubmapFull(used + Run(WORD * w + j, n), v, c) <==> SubmapFull(used, v, c)
  {
    assert WORD * w + WORD <= WORD * v;
    var used' := used + Run(WORD * w + j, n);
    forall f | WORD * v + SUBMAP * c <= f < WORD * v + SUBMAP * (c + 1) ensures f in used' <==> f in used {
    }
  }

  lemma ClassBound(n: nat)
    ensures ClassOf(n) < 4
  {
  }

  lemma ServesLater(used: set<nat>, words: nat, i: nat, n: nat, k: nat, ws: seq<nat>)
    requires k <= n && Serves(used, words, i + 1, n, k, ws)
    ensures Serves(used, words, i, n, k, ws)
  {
  }

  /** Serving the next piece from word `i` and the rest from later words. */
  lemma ServesCons(used: set<nat>, used': set<nat>, words: nat, i: nat, n: nat, k: nat, ws: seq<nat>)
    requires k + 8 < n && i < words && Serves(used', words, i + 1, n, k + 8, ws) && used <= used'
    requires !SubmapFull(used, i, ClassOf(Piece(n, k)))
    ensures Serves(used, words, i, n, k, [i] + ws)
  {
    var vs := [i] + ws;
    forall t | 0 <= t < |vs| && k + 8 * t < n
      ensures !SubmapFull(used, vs[t], ClassOf(Piece(n, k + 8 * t)))
    {
      if t > 0 {
        assert vs[t] == ws[t - 1] && k + 8 * t == k + 8 + 8 * (t - 1);
        assert !SubmapFull(used', ws[t - 1], ClassOf(Piece(n, k + 8 + 8 * (t - 1))));
      }
    }
  }

  lemma ServesTail(used: set<nat>, words: nat, i: nat, n: nat, k: nat, ws: seq<nat>)
    requires k + 8 < n && Serves(used, words, i, n, k, ws)
    ensures |ws| > 0 && Serves(used, words, i + 1, n, k + 8, ws[1..])
  {
    forall t | 0 <= t < |ws| - 1 ensures i + 1 <= ws[1..][t] < words {
      assert ws[0] < ws[t + 1];
    }
    forall t | 0 <= t < |ws| - 1 && k + 8 + 8 * t < n
      ensures !SubmapFull(used, ws[1..][t], ClassOf(Piece(n, k + 8 + 8 * t)))
    {
      assert ws[1..][t] == ws[t + 1] && k + 8 + 8 * t == k + 8 * (t + 1);
    }
  }

  /** A word whose submap is full serves nothing. */
  lemma ServesSkips(used: set<nat>, words: nat, i: nat, n: nat, k: nat, ws: seq<nat>)
    requires k < n && Serves(used, words, i, n, k, ws) && SubmapFull(used, i, ClassOf(Piece(n, k)))
    ensures i < words && Serves(used, words, i + 1, n, k, ws)
  {
    assert i <= ws[0] < words && !SubmapFull(used, ws[0], ClassOf(Piece(n, k + 8 * 0)));
    forall t | 0 <= t < |ws| ensures i + 1 <= ws[t] < words {
      assert ws[0] <= ws[t];
    }
  }

  lemma ServesAfter(used: set<nat>, w: nat, j: nat, m: nat, words: nat, n: nat, k: nat, ws: seq<nat>)
    requires j + m <= WORD && k <= n && Serves(used, words, w + 1, n, k, ws)
    ensures Serves(used + Run(WORD * w + j, m), words, w + 1, n, k, ws)
  {
    forall t | 0 <= t < |ws| && k + 8 * t < n
      ensures !SubmapFull(used + Run(WORD * w + j, m), ws[t], ClassOf(Piece(n, k + 8 * t)))
    {
      ClassBound(Piece(n, k + 8 * t));
      LaterSubmaps(used, w, j, m, ws[t], ClassOf(Piece(n, k + 8 * t)));
    }
  }

  lemma FullWordFullSubmap(used: set<nat>, w: nat, c: nat)
    requires WordFull(used, w) && c < 4
    ensures SubmapFull(used, w, c)
  {
  }

  lemma {:induction false} SuccessServes(used: set<nat>, words: nat, n: nat, i: nat, got: seq<nat>) returns (ws: seq<nat>)
    requires i <= words && PieceStart(n, |got|) && Uniform(used)
    requires FindAlloc(used, words, n, i, got).ok
    ensures Serves(used, words, i, n, |got|, ws)
    decreases words - i
  {
    var k := |got|;
    PieceIsGroup(n, k);
    var cur := Piece(n, k);
    NothingFoundIff(used, i, cur);
    var found := FindInMap(used, i, cur);
    if WordFull(used, i) || found.None? {
      ws := SuccessServes(used, words, n, i + 1, got);
      ServesLater(used, words, i, n, k, ws);
    } else {
      PieceServed(used, i, cur, found.value, WORD * i + found.value);
      var got' := got + Consecutive(WORD * i + found.value, cur);
      var used' := used + Marks(i, found.value, cur);
      if |got'| < n {
        ws := SuccessServes(used', words, n, i + 1, got');
        ServesCons(used, used', words, i, n, k, ws);
        ws := [i] + ws;
      } else {
        ws := [i];
      }
    }
  }

  /** The words left after serving a piece from word `i`. */
  lemma ServesRest(used: set<nat>, words: nat, i: nat, n: nat, k: nat, ws: seq<nat>, cur: nat, j: nat)
    requires Uniform(used) && PieceStart(n, k) && cur == Piece(n, k) && k + cur < n
    requires Serves(used, words, i, n, k, ws) && FindInMap(used, i, cur) == Some(j)
    ensures Uniform(used + Marks(i, j, cur)) && PieceStart(n, k + cur) && |ws| > 0
    ensures Serves(used + Marks(i, j, cur), words, i + 1, n, k + cur, ws[1..])
  {
    PieceIsGroup(n, k);
    PieceServed(used, i, cur, j, WORD * i + j);
    ServesTail(used, words, i, n, k, ws);
    ServesAfter(used, i, j, cur, words, n, k + 8, ws[1..]);
  }

  lemma {:induction false} ServesSucceeds(used: set<nat>, words: nat, n: nat, i: nat, got: seq<nat>, ws: seq<nat>)
    requires i <= words && PieceStart(n, |got|) && Uniform(used)
    requires Serves(used, words, i, n, |got|, ws)
    ensures FindAlloc(used, words, n, i, got).ok
    decreases words - i
  {
    var k := |got|;
    PieceIsGroup(n, k);
    var cur := Piece(n, k);
    ClassBound(cur);
    NothingFoundIff(used, i, cur);
    var found := FindInMap(used, i, cur);
    if WordFull(used, i) {
      FullWordFullSubmap(used, i, ClassOf(cur));
    }
    if WordFull(used, i) || found.None? {
      ServesSkips(used, words, i, n, k, ws);
      ServesSucceeds(used, words, n, i + 1, got, ws);
    } else {
      assert i <= ws[0] < words;
      if k + cur < n {
        ServesRest(used, words, i, n, k, ws, cur, found.value);
        ServesSucceeds(used + Marks(i, found.value, cur), words, n, i + 1,
                       got + Consecutive(WORD * i + found.value, cur), ws[1..]);
      }
    }
  }

  /** A search succeeds exactly when the pieces can be served from distinct words taken in
      order: the greedy choice of the first suitable word is never worse than another. */
  lemma SearchSucceedsIff(used: set<nat>, words: nat, n: nat)
    requires Uniform(used) && GoodCount(n)
    ensures FindAllocFrames(used, words, n).ok <==> exists ws :: Serves(used, words, 0, n, 0, ws)
  {
    if FindAllocFrames(used, words, n).ok {
      var ws := SuccessServes(used, words, n, 0, []);
    }
    forall ws | Serves(used, words, 0, n, 0, ws) ensures FindAllocFrames(used, words, n).ok {
      ServesSucceeds(used, words, n, 0, [], ws);
    }
  }

  /** A single group cannot be found exactly when its submap is full in every word. */
  lemma GroupFailsIff(used: set<nat>, words: nat, n: nat)
    requires Uniform(used) && WholeGroup(n)
    ensures !FindAllocFrames(used, words, n).ok <==>
              forall w: nat :: w < words ==> SubmapFull(used, w, ClassOf(n))
  {
    SearchSucceedsIff(used, words, n);
    forall w: nat | w < words && !SubmapFull(used, w, ClassOf(n))
      ensures Serves(used, words, 0, n, 0, [w])
    {
    }
    forall ws | Serves(used, words, 0, n, 0, ws)
      ensures 0 <= ws[0] < words && !SubmapFull(used, ws[0], ClassOf(n))
    {
      assert !SubmapFull(used, ws[0], ClassOf(Piece(n, 0 + 8 * 0)));
    }
  }

  // ---- single frames ----

  predicate IsSingle(f: nat) {
    f % WORD < SUBMAP
  }

  /** The free frames that requests for one frame are served from. */
  ghost function Singles(used: set<nat>, words: nat): set<nat> {
    set f | 0 <= f < WORD * words && IsSingle(f) && f !in used
  }

  lemma {:induction false} OneFound(used: set<nat>, words: nat, i: nat)
    requires i <= words
    ensures var r := FindAlloc(used, words, 1, i, []);
            r.ok ==> |r.frames| == 1 && r.frames[0] in Singles(used, words) && r.used == used + {r.frames[0]}
    decreases words - i
  {
    if i < words {
      if WordFull(used, i) || FindInMap(used, i, 1).None? {
        OneFound(used, words, i + 1);
      } else {
        OneHere(used, words, i, FindInMap(used, i, 1).value);
      }
    }
  }

  lemma OneHere(used: set<nat>, words: nat, i: nat, j: nat)
    requires i < words && !WordFull(used, i) && FindInMap(used, i, 1) == Some(j)
    ensures WORD * i + j in Singles(used, words)
    ensures FindAlloc(used, words, 1, i, []) == Found(used + {WORD * i + j}, [WORD * i + j], true)
  {
    assert Piece(1, 0) == 1;
    ShortRunMarked(i, j, 1);
    assert Run(WORD * i + j, 1) == {WORD * i + j};
    assert [] + Consecutive(WORD * i + j, 1) == [WORD * i + j];
    assert IsSingle(WORD * i + j);
  }

  /** A request for one frame succeeds exactly if a single frame is free, and takes one. */
  lemma SingleFoundIff(used: set<nat>, words: nat)
    requires Uniform(used)
    ensures var r := FindAllocFrames(used, words, 1);
            && (r.ok <==> Singles(used, words) != {})
            && (r.ok ==> |r.frames| == 1 && r.frames[0] in Singles(used, words) && r.used == used + {r.frames[0]})
  {
    OneFound(used, words, 0);
    GroupFailsIff(used, words, 1);
    if f :| f in Singles(used, words) {
      var w := f / WORD;
      assert WORD * w + SUBMAP * 0 <= f < WORD * w + SUBMAP * (0 + 1);
      assert !SubmapFull(used, w, ClassOf(1));
    }
  }

  lemma SinglesLeft(used: set<nat>, words: nat, added: set<nat>)
    requires added <= Singles(used, words)
    ensures Singles(used + added, words) == Singles(used, words) - added
    ensures |Singles(used + added, words)| == |Singles(used, words)| - |added|
  {
  }
}
