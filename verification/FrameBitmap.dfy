/** The frame bitmap itself: the in-place updates of `mem/frame_alloc.c`, proved against
    `FrameSpec`.  A 32-bit word is the set of the positions of its one bits, so that `|`, `&`
    and `& ~` on words are union, intersection and difference. */
module FrameBitmap {
  import opened Basics
  import opened FrameSpec
  import opened FrameTheorems

  type Word = set<nat>

  method GetFrameMeta(addr: nat) returns (frameMap: nat, frame: nat)
    ensures frame < WORD && WORD * frameMap + frame == addr / PAGE_SIZE
  {
    frameMap := addr / (PAGE_SIZE * WORD);
    frame := (addr - frameMap * PAGE_SIZE * WORD) / PAGE_SIZE;
  }

  /** The submap a request of `n` frames is served from, and its eight bits. */
  method GetFrameSubmapMask(n: nat) returns (mask: Word, id: nat)
    ensures id == if n <= SUBMAP then ClassOf(n) else 4
    ensures mask == Run(SUBMAP * (if id < 4 then id else 3), SUBMAP)
  {
    id := 0;
    while id < 4
      invariant id <= 4
      invariant id == 1 ==> n > 1
      invariant id == 2 ==> n > 2
      invariant id == 3 ==> n > 4
      invariant id == 4 ==> n > 8
    {
      if n <= GroupWidth(id) {
        mask := Run(id * SUBMAP, SUBMAP);
        return;
      }
      id := id + 1;
    }
    mask := Run(3 * SUBMAP, SUBMAP);
  }

  /** The last frame marking `n` frames reaches lies within the bitmap. */
  predicate Reaches(words: nat, frameMap: nat, frame: nat, n: nat) {
    n > 0 ==> Position(frameMap, frame, n - 1) < WORD * words
  }

  predicate UsedIn(ws: seq<Word>, f: nat) {
    f / WORD < |ws| && f % WORD in ws[f / WORD]
  }

  /** The numbers of the used frames. */
  ghost function UsedOf(ws: seq<Word>): set<nat> {
    set f | 0 <= f < WORD * |ws| && UsedIn(ws, f)
  }

  lemma WordAndBit(w: nat, j: nat)
    requires j < WORD
    ensures (WORD * w + j) / WORD == w && (WORD * w + j) % WORD == j
  {
  }

  lemma BitOf(ws: seq<Word>, w: nat, j: nat)
    requires w < |ws| && j < WORD
    ensures WORD * w + j in UsedOf(ws) <==> j in ws[w]
  {
    WordAndBit(w, j);
  }

  lemma MarkOne(ws: seq<Word>, w: nat, j: nat)
    requires w < |ws| && j < WORD
    ensures UsedOf(ws[w := ws[w] + {j}]) == UsedOf(ws) + {WORD * w + j}
    ensures UsedOf(ws[w := ws[w] - {j}]) == UsedOf(ws) - {WORD * w + j}
  {
    WordAndBit(w, j);
    forall f: nat | f != WORD * w + j
      ensures f / WORD != w || f % WORD != j
    {
      assert f == WORD * (f / WORD) + f % WORD;
    }
  }

  lemma SubmapBits(ws: seq<Word>, w: nat, c: nat, mask: Word)
    requires w < |ws| && c < 4 && mask == Run(SUBMAP * c, SUBMAP)
    ensures ws[w] * mask == mask <==> SubmapFull(UsedOf(ws), w, c)
  {
    forall j: nat | j < WORD ensures j in ws[w] <==> WORD * w + j in UsedOf(ws) {
      BitOf(ws, w, j);
    }
    if SubmapFull(UsedOf(ws), w, c) {
      forall j | j in mask ensures j in ws[w] {
        assert InRun(SUBMAP * c, SUBMAP, j);
        assert WORD * w + j in UsedOf(ws);
      }
    }
    if ws[w] * mask == mask {
      forall f | WORD * w + SUBMAP * c <= f < WORD * w + SUBMAP * (c + 1) ensures f in UsedOf(ws) {
        var j := f - WORD * w;
        assert InRun(SUBMAP * c, SUBMAP, j);
        assert j in ws[w] * mask;
      }
    }
  }

  lemma WordBits(ws: seq<Word>, w: nat)
    requires w < |ws| && forall j :: j in ws[w] ==> j < WORD
    ensures ws[w] == Run(0, WORD) <==> WordFull(UsedOf(ws), w)
  {
    forall j: nat | j < WORD ensures j in ws[w] <==> WORD * w + j in UsedOf(ws) {
      BitOf(ws, w, j);
    }
    if WordFull(UsedOf(ws), w) {
      forall j: nat ensures j in ws[w] <==> j in Run(0, WORD) {
        assert j < WORD ==> WORD * w + j in UsedOf(ws);
      }
    }
    if ws[w] == Run(0, WORD) {
      forall f | WORD * w <= f < WORD * w + WORD ensures f in UsedOf(ws) {
        assert InRun(0, WORD, f - WORD * w);
        assert f - WORD * w in ws[w];
      }
    }
  }

  /** Whatever word `w` serves a request of `n` frames with lies within the bitmap. */
  predicate StaysInside(used: set<nat>, words: nat, w: nat, n: nat)
    requires n >= 1
  {
    var r := FindInMap(used, w, n);
    r.Some? ==> WORD * w + r.value + n <= WORD * words
  }

  class Bitmap {
    const frames: array<Word>

    ghost predicate Ok()
      reads frames
    {
      forall w, j :: 0 <= w < frames.Length && j in frames[w] ==> j < WORD
    }

    ghost function Used(): set<nat>
      reads frames
    {
      UsedOf(frames[..])
    }

    constructor (pmemLimit: nat)
      ensures fresh(frames) && frames.Length == pmemLimit / (PAGE_SIZE * WORD)
      ensures Ok() && Used() == {}
    {
      frames := new Word[pmemLimit / (PAGE_SIZE * WORD)](i => {});
    }

    predicate IsFrameFree(frameMap: nat, frame: nat)
      requires frameMap < frames.Length && frame < WORD
      reads frames
      ensures IsFrameFree(frameMap, frame) <==> WORD * frameMap + frame !in Used()
    {
      BitOf(frames[..], frameMap, frame);
      frame !in frames[frameMap]
    }

    /** Reports a frame already in use and leaves it marked. */
    method SetFrameUsed(frameMap: nat, frame: nat) returns (err: bool)
      requires Ok() && frameMap < frames.Length && frame < WORD
      modifies frames
      ensures Ok() && Used() == old(Used()) + {WORD * frameMap + frame}
      ensures err <==> WORD * frameMap + frame in old(Used())
    {
      if !IsFrameFree(frameMap, frame) {
        return true;
      }
      ghost var ws := frames[..];
      frames[frameMap] := frames[frameMap] + {frame};
      MarkOne(ws, frameMap, frame);
      assert frames[..] == ws[frameMap := ws[frameMap] + {frame}];
      return false;
    }

    /** Marks a run of frames, moving to the next word the way the source does. */
    method SetNframesUsed(nframes: nat, frameMap: nat, frame: nat) returns (err: bool)
      requires Ok() && frame < WORD && Reaches(frames.Length, frameMap, frame, nframes)
      modifies frames
      ensures Ok() && Used() == old(Used()) + Marks(frameMap, frame, nframes)
      ensures err <==> Marks(frameMap, frame, nframes) * old(Used()) != {}
      ensures nframes <= WORD ==> Used() == old(Used()) + Run(WORD * frameMap + frame, nframes)
    {
      if nframes <= WORD {
        ShortRunMarked(frameMap, frame, nframes);
      }
      err := false;
      var fm: nat, fr: nat, overflow: int := frameMap, frame, 0;
      for i := 0 to nframes
        invariant Ok() && Cursor(frameMap, frame, i, fm, fr, overflow)
        invariant Used() == old(Used()) + Marks(frameMap, frame, i)
        invariant err <==> Marks(frameMap, frame, i) * old(Used()) != {}
      {
        if fr + i >= WORD {
          fr, overflow, fm := 0, -i, fm + 1;
        }
        NextPosition(frameMap, frame, i, nframes, frames.Length);
        assert 0 <= fr + i + overflow < WORD;
        assert WORD * fm + (fr + i + overflow) == Position(frameMap, frame, i);
        var e := SetFrameUsed(fm, fr + i + overflow);
        err := err || e;
        NextMark(frameMap, frame, i);
      }
    }

    /** Takes the page frames from `addr` on, whatever their state, and returns their entries. */
    method AllocNframes(nframes: nat, addr: nat, flags: nat) returns (entries: seq<nat>)
      requires Ok()
      requires Reaches(frames.Length, addr / PAGE_SIZE / WORD, addr / PAGE_SIZE % WORD, nframes)
      modifies frames
      ensures Ok() && entries == Entries(addr, nframes, flags)
      ensures Used() == old(Used()) + Marks(addr / PAGE_SIZE / WORD, addr / PAGE_SIZE % WORD, nframes)
      ensures nframes <= WORD ==> Used() == old(Used()) + Run(addr / PAGE_SIZE, nframes)
    {
      var frameMap, frame := GetFrameMeta(addr);
      assert frameMap == addr / PAGE_SIZE / WORD && frame == addr / PAGE_SIZE % WORD;
      var err := SetNframesUsed(nframes, frameMap, frame);
      entries := Entries(addr, nframes, flags);
    }

    method IsWordFull(w: nat) returns (full: bool)
      requires Ok() && w < frames.Length
      ensures full <==> WordFull(Used(), w)
    {
      WordBits(frames[..], w);
      FullByMask(frames[w]);
      full := frames[w] * Run(0, WORD) == Run(0, WORD);
    }

    method IsSubmapFull(w: nat, mask: Word, c: nat) returns (full: bool)
      requires w < frames.Length && c < 4 && mask == Run(SUBMAP * c, SUBMAP)
      ensures full <==> SubmapFull(Used(), w, c)
    {
      SubmapBits(frames[..], w, c, mask);
      full := frames[w] * mask == mask;
    }

    /** The search for a free group in one submap of a word. */
    method FindFreeBit(frameMap: nat, nframes: nat, id: nat) returns (r: Option<nat>)
      requires frameMap < frames.Length && 1 <= nframes <= SUBMAP && id == ClassOf(nframes)
      ensures r == FirstFree(Used(), frameMap, nframes, SUBMAP * id, SUBMAP * (id + 1))
    {
      var j := SUBMAP * id;
      while j < SUBMAP * (id + 1)
        invariant FirstFree(Used(), frameMap, nframes, j, SUBMAP * (id + 1))
               == FirstFree(Used(), frameMap, nframes, SUBMAP * id, SUBMAP * (id + 1))
        decreases SUBMAP * (id + 1) - j
      {
        if IsFrameFree(frameMap, j) {
          return Some(j);
        }
        j := j + nframes;
      }
      return None;
    }

    /** Serves one piece of a request from one word.  The marks may run into the next word, which
        must exist. */
    method FindFrameInMap(frameMap: nat, nframes: nat) returns (r: Option<nat>)
      requires Ok() && frameMap < frames.Length && 1 <= nframes <= SUBMAP
      requires StaysInside(Used(), frames.Length, frameMap, nframes)
      modifies frames
      ensures Ok() && r == FindInMap(old(Used()), frameMap, nframes)
      ensures Used() == match r
                        case None => old(Used())
                        case Some(j) => old(Used()) + Marks(frameMap, j, nframes)
    {
      var mask, id := GetFrameSubmapMask(nframes);
      var full := IsSubmapFull(frameMap, mask, id);
      if full {
        return None;
      }
      r := FindFreeBit(frameMap, nframes, id);
      if r.Some? {
        var err := SetNframesUsed(nframes, frameMap, r.value);
      }
    }

    /** One step of the search: the piece word `i` adds to the frames got so far. */
    method ServeWord(i: nat, nframes: nat, cur: nat, ghost got: seq<nat>) returns (r: Option<nat>)
      requires Ok() && i < frames.Length && |got| < nframes && cur == Piece(nframes, |got|)
      requires Below(FindAlloc(Used(), frames.Length, nframes, i, got).frames, WORD * frames.Length)
      modifies frames
      ensures Ok() && WordStep(old(Used()), Used(), frames.Length, nframes, i, got, cur, r)
    {
      ghost var used := Used();
      var full := IsWordFull(i);
      if full {
        r := None;
      } else {
        PieceInside(used, frames.Length, nframes, i, got, cur);
        r := FindFrameInMap(i, cur);
      }
      WordStepHolds(used, Used(), frames.Length, nframes, i, got, cur, r);
    }

    /** Finds `nframes` frames, one piece per word, and returns their entries.  A failure keeps
        the pieces already marked.  A count that splits groups may mark past the last word, which
        the source does not notice; the request must be one that stays inside. */
    method FindAllocNframes(nframes: nat, flags: nat) returns (ok: bool, entries: seq<nat>)
      requires Ok() && nframes >= 1
      requires Below(FindAllocFrames(Used(), frames.Length, nframes).frames, WORD * frames.Length)
      modifies frames
      ensures Ok()
      ensures var r := FindAllocFrames(old(Used()), frames.Length, nframes);
              Used() == r.used && ok == r.ok && entries == EntriesFor(r.frames, flags)
    {
      ghost var got: seq<nat> := [];
      entries := [];
      for i := 0 to frames.Length
        invariant Ok() && |got| < nframes && entries == EntriesFor(got, flags)
        invariant FindAlloc(Used(), frames.Length, nframes, i, got)
               == FindAllocFrames(old(Used()), frames.Length, nframes)
      {
        var cur := Piece(nframes, |entries|);
        var r := ServeWord(i, nframes, cur, got);
        if r.Some? {
          ghost var more := Consecutive(WORD * i + r.value, cur);
          var added := SetNallocAddrs(cur, i, r.value, flags, more);
          EntriesAppend(got, more, flags);
          entries, got := entries + added, got + more;
          if |entries| >= nframes {
            return true, entries;
          }
        }
      }
      return false, entries;
    }

    method SetNallocAddrs(nframes: nat, fm: nat, frame: nat, flags: nat, ghost group: seq<nat>)
      returns (entries: seq<nat>)
      requires group == Consecutive(WORD * fm + frame, nframes)
      ensures entries == EntriesFor(group, flags)
    {
      entries := [];
      for i := 0 to nframes
        invariant |entries| == i
        invariant forall k :: 0 <= k < i ==> entries[k] == Or(PageAddr(group[k]), flags)
      {
        entries := entries + [Or(fm * PAGE_SIZE * WORD + (frame + i) * PAGE_SIZE, flags)];
      }
    }

    /** The low twelve bits of the address are paging flags. */
    method DeallocFrame(addr: nat)
      requires Ok() && addr / PAGE_SIZE < WORD * frames.Length
      modifies frames
      ensures Ok() && Used() == old(Used()) - {addr / PAGE_SIZE}
    {
      var frameMap, frame := GetFrameMeta(addr - addr % PAGE_SIZE);
      ghost var ws := frames[..];
      frames[frameMap] := frames[frameMap] - {frame};
      MarkOne(ws, frameMap, frame);
      assert frames[..] == ws[frameMap := ws[frameMap] - {frame}];
    }

    method DeallocNframes(addr: nat, nframes: nat)
      requires Ok() && addr / PAGE_SIZE + nframes <= WORD * frames.Length
      modifies frames
      ensures Ok() && Used() == old(Used()) - Run(addr / PAGE_SIZE, nframes)
    {
      for i := 0 to nframes
        invariant Ok() && Used() == old(Used()) - Run(addr / PAGE_SIZE, i)
      {
        assert (addr + PAGE_SIZE * i) / PAGE_SIZE == addr / PAGE_SIZE + i;
        DeallocFrame(addr + PAGE_SIZE * i);
        assert Run(addr / PAGE_SIZE, i + 1) == Run(addr / PAGE_SIZE, i) + {addr / PAGE_SIZE + i};
      }
    }
  }

  lemma FullByMask(w: Word)
    requires forall j :: j in w ==> j < WORD
    ensures w * Run(0, WORD) == Run(0, WORD) <==> w == Run(0, WORD)
  {
    forall j | j in w ensures j in Run(0, WORD) {
      assert InRun(0, WORD, j);
    }
  }

  lemma FindAllocStep(used: set<nat>, words: nat, n: nat, i: nat, got: seq<nat>, cur: nat)
    requires i < words && |got| < n && !WordFull(used, i) && cur == Piece(n, |got|)
    ensures FindAlloc(used, words, n, i, got) ==
              match FindInMap(used, i, cur)
              case None => FindAlloc(used, words, n, i + 1, got)
              case Some(j) =>
                var used' := used + Marks(i, j, cur);
                var got' := got + Consecutive(WORD * i + j, cur);
                if |got'| >= n then Found(used', got', true) else FindAlloc(used', words, n, i + 1, got')
  {
  }

  /** The frames got so far stay at the front of the result. */
  lemma {:induction false} FramesExtend(used: set<nat>, words: nat, n: nat, i: nat, got: seq<nat>)
    requires i <= words && |got| < n
    ensures got <= FindAlloc(used, words, n, i, got).frames
    decreases words - i
  {
    if i < words {
      if WordFull(used, i) || FindInMap(used, i, Piece(n, |got|)).None? {
        FramesExtend(used, words, n, i + 1, got);
      } else {
        var j, cur := FindInMap(used, i, Piece(n, |got|)).value, Piece(n, |got|);
        var got' := got + Consecutive(WORD * i + j, cur);
        if |got'| < n {
          FramesExtend(used + Marks(i, j, cur), words, n, i + 1, got');
        }
      }
    }
  }

  lemma PieceInside(used: set<nat>, words: nat, n: nat, i: nat, got: seq<nat>, cur: nat)
    requires i < words && |got| < n && cur == Piece(n, |got|) && !WordFull(used, i)
    requires Below(FindAlloc(used, words, n, i, got).frames, WORD * words)
    ensures StaysInside(used, words, i, cur)
  {
    var found := FindInMap(used, i, cur);
    if found.Some? {
      var got' := got + Consecutive(WORD * i + found.value, cur);
      var r := FindAlloc(used, words, n, i, got).frames;
      if |got'| < n {
        FramesExtend(used + Marks(i, found.value, cur), words, n, i + 1, got');
      }
      assert r[|got'| - 1] == WORD * i + found.value + cur - 1;
    }
  }

  /** What one iteration does to the search: either the word adds nothing, or it adds a group. */
  ghost predicate WordStep(used: set<nat>, used': set<nat>, words: nat, n: nat, i: nat,
                           got: seq<nat>, cur: nat, r: Option<nat>)
  {
    && i < words && |got| < n
    && FindAlloc(used, words, n, i, got) ==
         var got' := if r.None? then got else got + Consecutive(WORD * i + r.value, cur);
         if |got'| >= n then Found(used', got', true) else FindAlloc(used', words, n, i + 1, got')
  }

  lemma WordStepHolds(used: set<nat>, used': set<nat>, words: nat, n: nat, i: nat,
                      got: seq<nat>, cur: nat, r: Option<nat>)
    requires i < words && |got| < n && cur == Piece(n, |got|)
    requires WordFull(used, i) ==> r == None
    requires !WordFull(used, i) ==> r == FindInMap(used, i, cur)
    requires used' == if r.None? then used else used + Marks(i, r.value, cur)
    ensures WordStep(used, used', words, n, i, got, cur, r)
  {
    if !WordFull(used, i) {
      FindAllocStep(used, words, n, i, got, cur);
    }
  }

  /** The loop variables of the marking loop at the head of iteration `i`. */
  predicate Cursor(frameMap: nat, frame: nat, i: nat, fm: nat, fr: nat, overflow: int) {
    if frame + i <= WORD && i <= WORD then fm == frameMap && fr == frame && overflow == 0
    else if i <= WORD then fm == frameMap + 1 && fr == 0 && overflow == frame - WORD
    else fm == frameMap + (if frame > 0 then 1 else 0) + i - 32 && fr == 0 && overflow == 1 - i
  }

  lemma NextPosition(frameMap: nat, frame: nat, i: nat, n: nat, words: nat)
    requires frame < WORD && i < n && Reaches(words, frameMap, frame, n)
    ensures Position(frameMap, frame, i) < WORD * words
  {
    if i < n - 1 {
      PositionsDiffer(frameMap, frame, i, n - 1);
    }
  }

  lemma NextMark(frameMap: nat, frame: nat, i: nat)
    requires frame < WORD
    ensures Marks(frameMap, frame, i + 1) == Marks(frameMap, frame, i) + {Position(frameMap, frame, i)}
    ensures Position(frameMap, frame, i) !in Marks(frameMap, frame, i)
  {
    forall j | 0 <= j < i ensures Position(frameMap, frame, j) != Position(frameMap, frame, i) {
      PositionsDiffer(frameMap, frame, j, i);
    }
  }
}
