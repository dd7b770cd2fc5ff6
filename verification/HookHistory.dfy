/** Sequences of hooks on disjoint targets: every patch and every bridge keeps working. */
module HookHistory {
  import opened Words
  import opened HookFuncs
  import opened Wrappers

  predicate Apart(a: nat, n: nat, b: nat, k: nat) {
    a + n <= b || b + k <= a
  }

  /** Two hooks touch no byte in common. */
  predicate Independent(g: Hook, h: Hook) {
    && Apart(g.target, g.Stolen(), h.target, h.Stolen())
    && Apart(g.target, g.Stolen(), h.block, h.BridgeLength())
    && Apart(g.block, g.BridgeLength(), h.target, h.Stolen())
    && Apart(g.block, g.BridgeLength(), h.block, h.BridgeLength())
  }

  predicate AllFit(hs: seq<Hook>, n: nat) {
    forall i :: 0 <= i < |hs| ==> hs[i].Fits(n)
  }

  /** Hooks that fit in n bytes of memory and are pairwise independent. */
  predicate Plan(hs: seq<Hook>, n: nat) {
    && AllFit(hs, n)
    && (forall i, j :: 0 <= i < j < |hs| ==> Independent(hs[i], hs[j]))
  }

  /** The memory after the hooks hs, made one after the other. */
  function Run(m: Bytes, hs: seq<Hook>): (r: Bytes)
    requires AllFit(hs, |m|)
    ensures |r| == |m|
  {
    if hs == [] then m else Hooked(Run(m, hs[..|hs| - 1]), hs[|hs| - 1])
  }

  /** Address x belongs to the patch or the bridge of h. */
  predicate Touches(h: Hook, x: int) {
    h.target <= x < h.target + h.Stolen() || h.block <= x < h.block + h.BridgeLength()
  }

  lemma HookedElsewhere(m: Bytes, h: Hook, x: int)
    requires h.Fits(|m|) && 0 <= x < |m| && !Touches(h, x)
    ensures Hooked(m, h)[x] == m[x]
  {
    hide Patch, Bridge;
  }

  lemma PlanPrefix(hs: seq<Hook>, n: nat)
    requires Plan(hs, n) && hs != []
    ensures Plan(hs[..|hs| - 1], n) && AllFit(hs[..|hs| - 1], n) && hs[|hs| - 1].Fits(n)
    ensures forall i :: 0 <= i < |hs| - 1 ==> Independent(hs[i], hs[|hs| - 1])
  {
    hide Independent;
  }

  /** A run of hooks changes nothing outside the patches and the bridges. */
  lemma {:induction false} RunElsewhere(m: Bytes, hs: seq<Hook>, x: int)
    requires Plan(hs, |m|) && 0 <= x < |m|
    requires forall i :: 0 <= i < |hs| ==> !Touches(hs[i], x)
    ensures Run(m, hs)[x] == m[x]
  {
    hide Independent, Hooked, Touches;
    if hs != [] {
      PlanPrefix(hs, |m|);
      RunElsewhere(m, hs[..|hs| - 1], x);
      HookedElsewhere(Run(m, hs[..|hs| - 1]), hs[|hs| - 1], x);
    }
  }

  /** The bytes b stand at address a. */
  predicate Holds(f: Bytes, a: nat, b: Bytes) {
    a + |b| <= |f| && forall j :: 0 <= j < |b| ==> f[a + j] == b[j]
  }

  /** Bytes that a later hook does not touch stay. */
  lemma HoldsKept(f: Bytes, g: Hook, a: nat, b: Bytes)
    requires g.Fits(|f|) && Holds(f, a, b)
    requires Apart(a, |b|, g.target, g.Stolen()) && Apart(a, |b|, g.block, g.BridgeLength())
    ensures Holds(Hooked(f, g), a, b)
  {
    hide Hooked;
    forall j | 0 <= j < |b| ensures Hooked(f, g)[a + j] == b[j] { HookedElsewhere(f, g, a + j); }
  }

  /** h is in place in f: its target holds the jump, and its block the bridge made from the
      bytes that the target had in m. */
  predicate Installed(f: Bytes, m: Bytes, h: Hook)
    requires h.Fits(|m|)
  {
    Holds(f, h.target, Patch(h.target, h.filter, h.Stolen())) && Holds(f, h.block, Bridge(m, h))
  }

  lemma BridgeFromSame(before: Bytes, m: Bytes, h: Hook)
    requires h.Fits(|m|) && |before| == |m| && Holds(before, h.target, m[h.target..h.target + h.Stolen()])
    ensures Bridge(before, h) == Bridge(m, h)
  {
    assert before[h.target..h.target + h.Stolen()] == m[h.target..h.target + h.Stolen()];
  }

  lemma InstalledNow(before: Bytes, m: Bytes, h: Hook)
    requires h.Fits(|m|) && |before| == |m| && Holds(before, h.target, m[h.target..h.target + h.Stolen()])
    ensures Installed(Hooked(before, h), m, h)
  {
    hide Patch, Bridge;
    BridgeFromSame(before, m, h);
  }

  lemma InstalledStays(f: Bytes, m: Bytes, h: Hook, g: Hook)
    requires h.Fits(|m|) && g.Fits(|f|) && Installed(f, m, h) && Independent(h, g)
    ensures Installed(Hooked(f, g), m, h)
  {
    hide Hooked, Bridge, Holds;
    HoldsKept(f, g, h.target, Patch(h.target, h.filter, h.Stolen()));
    HoldsKept(f, g, h.block, Bridge(m, h));
  }

  lemma TargetStillClean(m: Bytes, hs: seq<Hook>)
    requires Plan(hs, |m|) && hs != [] && AllFit(hs[..|hs| - 1], |m|) && hs[|hs| - 1].Fits(|m|)
    ensures var h := hs[|hs| - 1];
            Holds(Run(m, hs[..|hs| - 1]), h.target, m[h.target..h.target + h.Stolen()])
  {
    hide Run, Plan;
    PlanPrefix(hs, |m|);
    var h := hs[|hs| - 1];
    var f, own := Run(m, hs[..|hs| - 1]), m[h.target..h.target + h.Stolen()];
    forall j | 0 <= j < |own| ensures f[h.target + j] == own[j] {
      RunElsewhere(m, hs[..|hs| - 1], h.target + j);
    }
  }

  /** After any run of independent hooks, each target holds its jump and each block holds the
      bridge made from the bytes that the target had before the first hook. */
  lemma {:induction false} RunKeepsHooks(m: Bytes, hs: seq<Hook>, i: nat)
    requires Plan(hs, |m|) && i < |hs|
    ensures Installed(Run(m, hs), m, hs[i])
  {
    hide Installed, Hooked, Independent, Holds;
    var k := |hs| - 1;
    PlanPrefix(hs, |m|);
    var before := Run(m, hs[..k]);
    if i == k {
      TargetStillClean(m, hs);
      InstalledNow(before, m, hs[k]);
    } else {
      RunKeepsHooks(m, hs[..k], i);
      InstalledStays(before, m, hs[i], hs[k]);
    }
  }

  lemma SmallAddress(x: int)
    requires 0 <= x < SPACE
    ensures x % SPACE == x
  {
  }

  /** A jump at offset `off` of the bytes b that stand at address a. */
  lemma JumpInside(f: Bytes, a: nat, b: Bytes, off: nat, dest: int)
    requires Holds(f, a, b) && off + 5 <= |b| && b[off..off + 5] == Jump(a + off, dest)
    ensures a + off + 5 <= |f| && JumpTarget(f, a + off) == Some(dest % SPACE)
  {
    hide Jump, JumpTarget;
    var part, direct := b[off..off + 5], f[a + off..a + off + 5];
    forall j | 0 <= j < 5 ensures part[j] == direct[j] { assert part[j] == b[off + j] == f[a + (off + j)]; }
    JumpReaches(f, a + off, dest);
  }

  lemma PatchParts(h: Hook)
    ensures |Patch(h.target, h.filter, h.Stolen())| == h.Stolen()
    ensures Patch(h.target, h.filter, h.Stolen())[0..5] == Jump(h.target, h.filter)
  {
    hide Jump, Fill;
    var j, p := Jump(h.target, h.filter), Patch(h.target, h.filter, h.Stolen());
    assert p == j + Fill(if h.Stolen() > 5 then h.Stolen() - 5 else 0, NOP);
    assert p[0..5] == j;
  }

  lemma Middle(a: Bytes, b: Bytes, c: Bytes)
    ensures (a + b + c)[|a|..|a| + |b|] == b
  {
  }

  lemma BridgeParts(m: Bytes, h: Hook)
    requires h.Fits(|m|)
    ensures var at := h.BackJump() - h.block;
            Bridge(m, h)[at..at + 5] == Jump(h.BackJump(), h.target + h.Stolen())
    ensures !h.Library() ==> Bridge(m, h)[5..5 + h.Stolen()] == m[h.target..h.target + h.Stolen()]
  {
    hide Jump, Fill, Frame;
    var j := Jump(h.BackJump(), h.target + h.Stolen());
    if h.Library() {
      Middle(Frame(true), j, Fill(5, 0));
    } else {
      Middle(Frame(false), m[h.target..h.target + h.Stolen()], j);
      Middle(Frame(false) + m[h.target..h.target + h.Stolen()], j, []);
      assert Bridge(m, h) + [] == Bridge(m, h);
    }
  }

  lemma InstalledConnects(f: Bytes, m: Bytes, h: Hook)
    requires h.Fits(|m|) && |f| == |m| && Installed(f, m, h)
    ensures JumpTarget(f, h.target) == Some(h.filter)
    ensures JumpTarget(f, h.BackJump()) == Some((h.target + h.Stolen()) % SPACE)
  {
    hide Jump, Patch, Bridge, JumpTarget, Holds;
    PatchParts(h);
    JumpInside(f, h.target, Patch(h.target, h.filter, h.Stolen()), 0, h.filter);
    BridgeParts(m, h);
    JumpInside(f, h.block, Bridge(m, h), h.BackJump() - h.block, h.target + h.Stolen());
    SmallAddress(h.filter);
  }

  /** Calls of the target reach the filter, and the bridge's jump back, which is the one that
      InterpretAddress reads, reaches the first byte after the patch. */
  lemma HooksConnect(m: Bytes, hs: seq<Hook>, i: nat)
    requires Plan(hs, |m|) && i < |hs|
    ensures var f, h := Run(m, hs), hs[i];
            && JumpTarget(f, h.target) == Some(h.filter)
            && JumpTarget(f, h.BackJump()) == Some((h.target + h.Stolen()) % SPACE)
  {
    hide Jump, Patch, Bridge, JumpTarget, Run, Independent, Holds, Installed;
    RunKeepsHooks(m, hs, i);
    InstalledConnects(Run(m, hs), m, hs[i]);
  }

  lemma PatchBytes(h: Hook)
    ensures var p := Patch(h.target, h.filter, h.Stolen());
            |p| == h.Stolen() && p[0] == 0xE9 && forall j :: 5 <= j < |p| ==> p[j] == 0x90
  {
    hide Bytes32;
  }

  lemma FrameBytes(m: Bytes, h: Hook)
    requires h.Fits(|m|)
    ensures Bridge(m, h)[..5]
         == if h.alignment == 99 then [0x89, 0xFF, 0x55, 0x8B, 0xEC] else [0x90, 0x90, 0x58, 0x90, 0x90]
  {
    hide Jump, Fill;
  }

  lemma HeldSlice(f: Bytes, a: nat, b: Bytes, n: nat)
    requires Holds(f, a, b) && n <= |b|
    ensures a + n <= |f| && f[a..a + n] == b[..n]
  {
  }

  /** The instructions themselves: E9 at the target and nops from its sixth byte on, and at the head
      of the bridge the instructions that make a stack frame or pop eax. */
  lemma WrittenBytes(m: Bytes, hs: seq<Hook>, i: nat)
    requires Plan(hs, |m|) && i < |hs|
    ensures var f, h := Run(m, hs), hs[i];
            var patch := f[h.target..h.target + h.Stolen()];
            && patch[0] == 0xE9 && (forall j :: 5 <= j < |patch| ==> patch[j] == 0x90)
            && f[h.block..h.block + 5]
               == if h.alignment == 99 then [0x89, 0xFF, 0x55, 0x8B, 0xEC] else [0x90, 0x90, 0x58, 0x90, 0x90]
  {
    hide Run, Independent, Patch, Bridge, Holds;
    var f, h := Run(m, hs), hs[i];
    var p := Patch(h.target, h.filter, h.Stolen());
    RunKeepsHooks(m, hs, i);
    PatchBytes(h);
    HeldSlice(f, h.target, p, |p|);
    assert p[..|p|] == p;
    FrameBytes(m, h);
    HeldSlice(f, h.block, Bridge(m, h), 5);
  }

  /** The k-th byte of the original function as the processor meets it after the frame of the
      bridge: first the bytes of the bridge, then, behind its jump, those it leads to. */
  function Reached(f: Bytes, h: Hook, k: nat): (b: Option<byte>)
    requires h.Fits(|f|)
  {
    if !h.Library() && k < h.Stolen() then Some(f[h.block + 5 + k])
    else
      match JumpTarget(f, h.BackJump())
      case Some(dest) =>
        var x := dest + (k - h.Stolen());
        if 0 <= x < |f| then Some(f[x]) else None
      case None => None
  }

  lemma SavedByte(f: Bytes, m: Bytes, h: Hook, k: nat)
    requires h.Fits(|m|) && |f| == |m| && Installed(f, m, h) && !h.Library() && k < h.Stolen()
    ensures f[h.block + 5 + k] == m[h.target + k]
  {
    hide Patch, Bridge;
    BridgeParts(m, h);
    assert f[h.block + (5 + k)] == Bridge(m, h)[5 + k] == Bridge(m, h)[5..5 + h.Stolen()][k];
  }

  lemma ReachedSaved(f: Bytes, m: Bytes, h: Hook, k: nat)
    requires h.Fits(|m|) && |f| == |m| && Installed(f, m, h) && !h.Library() && k < h.Stolen()
    ensures h.Fits(|f|) && Reached(f, h, k) == Some(m[h.target + k])
  {
    hide Installed, JumpTarget;
    SavedByte(f, m, h, k);
  }

  lemma ReachedBehind(f: Bytes, m: Bytes, h: Hook, k: nat)
    requires h.Fits(|f|) && |f| == |m| && (h.Library() || k >= h.Stolen())
    requires JumpTarget(f, h.BackJump()) == Some(h.target + h.Stolen())
    requires h.target + k < |f| && f[h.target + k] == m[h.target + k]
    ensures Reached(f, h, k) == Some(m[h.target + k])
  {
    hide JumpTarget;
  }

  /** What runs after the frame is the unpatched function: byte k is the one the target had
      before any hook. (A library function's first five bytes are the frame itself.) */
  lemma BridgeRunsOriginal(m: Bytes, hs: seq<Hook>, i: nat, k: nat)
    requires Plan(hs, |m|) && i < |hs|
    requires hs[i].target + k < |m| && hs[i].target + hs[i].Stolen() < SPACE
    requires hs[i].Library() ==> k >= 5
    requires k >= hs[i].Stolen() ==> forall j :: 0 <= j < |hs| ==> !Touches(hs[j], hs[i].target + k)
    ensures Reached(Run(m, hs), hs[i], k) == Some(m[hs[i].target + k])
  {
    hide Run, Independent, Touches, JumpTarget, Installed, Reached;
    if !hs[i].Library() && k < hs[i].Stolen() {
      RunKeepsHooks(m, hs, i);
      ReachedSaved(Run(m, hs), m, hs[i], k);
    } else {
      HooksConnect(m, hs, i);
      SmallAddress(hs[i].target + hs[i].Stolen());
      RunElsewhere(m, hs, hs[i].target + k);
      ReachedBehind(Run(m, hs), m, hs[i], k);
    }
  }
}
