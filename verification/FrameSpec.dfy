/** The physical frame bitmap's operations on the set of used frame numbers.

    Frame `f` is bit `f % 32` of word `f / 32`.  The 32 bits of a word are four submaps of eight
    bits; submap `c` serves groups of `2^c` frames. */
module FrameSpec {
  import opened Basics

  const WORD: nat := 32
  const SUBMAP: nat := 8

  // ---- marking a run of frames ----

  /** The frame marked in iteration `i` when marking starts at bit `frame` of word `frameMap`.
      Up to iteration 31 this is the next frame; from iteration 32 on the overflow test holds
      every time, so that each iteration moves on to bit 0 of a further word. */
  function Position(frameMap: nat, frame: nat, i: nat): nat {
    if i < WORD then WORD * frameMap + frame + i
    else WORD * (frameMap + (if frame > 0 then 1 else 0) + i - 31)
  }

  function Marks(frameMap: nat, frame: nat, n: nat): set<nat> {
    set i | 0 <= i < n :: Position(frameMap, frame, i)
  }

  predicate InRun(f: nat, n: nat, x: nat) {
    f <= x < f + n
  }

  /** The `n` frames from `f` on. */
  function Run(f: nat, n: nat): set<nat> {
    set x | 0 <= x < f + n && InRun(f, n, x)
  }

  lemma PositionsDiffer(frameMap: nat, frame: nat, i: nat, j: nat)
    requires frame < WORD && i < j
    ensures Position(frameMap, frame, i) < Position(frameMap, frame, j)
  {
  }

  lemma {:induction false} ShortRunMarked(frameMap: nat, frame: nat, n: nat)
    requires frame < WORD && (n <= WORD || (frame == 0 && n == WORD + 1))
    ensures Marks(frameMap, frame, n) == Run(WORD * frameMap + frame, n)
  {
    var start := WORD * frameMap + frame;
    assert forall i :: 0 <= i < n ==> Position(frameMap, frame, i) == start + i;
    forall x | x in Run(start, n) ensures x in Marks(frameMap, frame, n) {
      assert Position(frameMap, frame, x - start) == x;
    }
  }

  /** Marking covers exactly the `n` consecutive frames for up to 32 frames, or for 33 that
      start a word; beyond that some frame of the run is left unmarked. */
  lemma MarksIff(frameMap: nat, frame: nat, n: nat)
    requires frame < WORD
    ensures Marks(frameMap, frame, n) == Run(WORD * frameMap + frame, n)
       <==> n <= WORD || (frame == 0 && n == WORD + 1)
  {
    if n <= WORD || (frame == 0 && n == WORD + 1) {
      ShortRunMarked(frameMap, frame, n);
    } else {
      var start := WORD * frameMap + frame;
      var missed := if frame == 0 then start + 33 else start + 32;
      assert missed in Run(start, n);
      forall i | 0 <= i < n ensures Position(frameMap, frame, i) != missed {
      }
      assert missed !in Marks(frameMap, frame, n);
    }
  }

  /** The pages handed to a fixed-address mapping: one entry per page, whatever the marking did. */
  function Entries(addr: nat, n: nat, flags: nat): (r: seq<nat>)
    ensures |r| == n
  {
    seq<nat>(n, (i: nat) => Or(addr + i * PAGE_SIZE, flags))
  }

  // ---- searching for a group ----

  function ClassOf(n: nat): nat {
    if n <= 1 then 0 else if n <= 2 then 1 else if n <= 4 then 2 else 3
  }

  function GroupWidth(c: nat): (r: nat)
    ensures r > 0
  {
    if c == 0 then 1 else if c == 1 then 2 else if c == 2 then 4 else 8
  }

  predicate SubmapFull(used: set<nat>, w: nat, c: nat) {
    forall f :: WORD * w + SUBMAP * c <= f < WORD * w + SUBMAP * (c + 1) ==> f in used
  }

  predicate WordFull(used: set<nat>, w: nat) {
    forall f :: WORD * w <= f < WORD * w + WORD ==> f in used
  }

  /** The first bit from `j` on, in steps of `n`, whose frame is free. */
  function FirstFree(used: set<nat>, w: nat, n: nat, j: nat, hi: nat): (r: Option<nat>)
    requires n >= 1
    ensures r.Some? ==> j <= r.value < hi && WORD * w + r.value !in used
    decreases hi - j
  {
    if j >= hi then None
    else if WORD * w + j !in used then Some(j)
    else FirstFree(used, w, n, j + n, hi)
  }

  /** The bit at which word `w` can serve `n` frames.  Only the first frame is tested. */
  function FindInMap(used: set<nat>, w: nat, n: nat): Option<nat>
    requires n >= 1
  {
    var c := ClassOf(n);
    if SubmapFull(used, w, c) then None else FirstFree(used, w, n, SUBMAP * c, SUBMAP * (c + 1))
  }

  function Piece(n: nat, got: nat): nat
    requires got < n
  {
    if n - got > SUBMAP then SUBMAP else n - got
  }

  /** The result: the frames used afterwards, the frames handed out, and whether all were. */
  datatype Found = Found(used: set<nat>, frames: seq<nat>, ok: bool)

  function Consecutive(f: nat, n: nat): (r: seq<nat>)
    ensures |r| == n
  {
    seq<nat>(n, (i: nat) => f + i)
  }

  /** The search through words `i..words` for the frames still missing.  Each word serves at
      most one piece.  A failure leaves the pieces found so far marked. */
  function FindAlloc(used: set<nat>, words: nat, n: nat, i: nat, got: seq<nat>): Found
    requires i <= words && |got| < n
    decreases words - i
  {
    if i == words then Found(used, got, false)
    else if WordFull(used, i) then FindAlloc(used, words, n, i + 1, got)
    else
      var cur := Piece(n, |got|);
      match FindInMap(used, i, cur)
      case None => FindAlloc(used, words, n, i + 1, got)
      case Some(j) =>
        var used' := used + Marks(i, j, cur);
        var got' := got + Consecutive(WORD * i + j, cur);
        if |got'| >= n then Found(used', got', true) else FindAlloc(used', words, n, i + 1, got')
  }

  function FindAllocFrames(used: set<nat>, words: nat, n: nat): Found
    requires n >= 1
  {
    FindAlloc(used, words, n, 0, [])
  }

  function PageAddr(f: nat): nat {
    f * PAGE_SIZE
  }

  /** The page-table entries for a list of frames. */
  function EntriesFor(frames: seq<nat>, flags: nat): (r: seq<nat>)
    ensures |r| == |frames|
  {
    seq<nat>(|frames|, i requires 0 <= i < |frames| => Or(PageAddr(frames[i]), flags))
  }

  lemma EntriesAppend(a: seq<nat>, b: seq<nat>, flags: nat)
    ensures EntriesFor(a + b, flags) == EntriesFor(a, flags) + EntriesFor(b, flags)
  {
  }

  /** The word and bit of a page-aligned address, and back. */
  lemma FrameMetaInverse(f: nat)
    ensures PageAddr(f) / (PAGE_SIZE * WORD) == f / WORD
    ensures (PageAddr(f) - f / WORD * PAGE_SIZE * WORD) / PAGE_SIZE == f % WORD
    ensures f / WORD * PAGE_SIZE * WORD + f % WORD * PAGE_SIZE == PageAddr(f)
  {
  }
}
