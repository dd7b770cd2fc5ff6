/** Jump patching and trampolines over a flat memory of bytes with 32-bit addresses. */
module HookFuncs {
  import opened Words
  import opened Wrappers

  const WINDOWS_LIBRARY := 99
  const JMP: byte := 0xE9
  const NOP: byte := 0x90

  /** Memory m with the bytes b at address a. */
  function Overwrite(m: Bytes, a: nat, b: Bytes): (r: Bytes)
    requires a + |b| <= |m|
    ensures |r| == |m|
    ensures forall i :: 0 <= i < |m| ==> r[i] == if a <= i < a + |b| then b[i - a] else m[i]
  {
    m[..a] + b + m[a + |b|..]
  }

  /** The instruction at address `at` that jumps to `dest`: E9 and the distance from its end. */
  function Jump(at: nat, dest: int): (b: Bytes)
    ensures |b| == 5
  {
    [JMP] + Bytes32((dest - (at + 1) - 4) % SPACE)
  }

  /** Where the processor goes from a jump instruction at address a. */
  function JumpTarget(m: Bytes, a: nat): (dest: Option<int>)
    requires a + 5 <= |m|
  {
    if m[a] == JMP then Some((a + 5 + Word32(m[a + 1..a + 5])) % SPACE) else None
  }

  lemma ModCancels(a: int, b: int, d: int)
    requires d == SPACE
    ensures (a + (b - a) % d) % d == b % d
  {
  }

  /** A patched jump goes where it was meant to, for every address and destination. */
  lemma JumpReaches(m: Bytes, at: nat, dest: int)
    requires at + 5 <= |m| && m[at..at + 5] == Jump(at, dest)
    ensures JumpTarget(m, at) == Some(dest % SPACE)
  {
    hide Word32, Bytes32;
    var d := (dest - (at + 1) - 4) % SPACE;
    assert m[at] == m[at..at + 5][0] == JMP;
    assert m[at + 1..at + 5] == m[at..at + 5][1..] == Bytes32(d);
    Word32OfBytes32(d);
    ModCancels(at + 5, dest, SPACE);
  }

  lemma Small(x: int)
    requires 0 <= x < SPACE
    ensures x % SPACE == x
  {
  }

  /** Four steps of shifting and adding, mod 2^32, read a little-endian word. */
  lemma ShiftedBytes(b0: byte, b1: byte, b2: byte, b3: byte)
    ensures var d3: int, d2: int, d1: int, d0: int := b3, b2, b1, b0;
            (((d3 * 256 % SPACE + d2) % SPACE * 256 % SPACE + d1) % SPACE * 256 % SPACE + d0) % SPACE
            == Word32([b0, b1, b2, b3])
  {
    var d3: int, d2: int, d1: int, d0: int := b3, b2, b1, b0;
    Small(d3 * 256);
    Small(d3 * 256 + d2);
    Small((d3 * 256 + d2) * 256);
    Small((d3 * 256 + d2) * 256 + d1);
    Small(((d3 * 256 + d2) * 256 + d1) * 256);
    Small(((d3 * 256 + d2) * 256 + d1) * 256 + d0);
  }

  /** Adding the address of the jump and its length, each modulo 2^32. */
  lemma AddFive(w: int, at: int)
    ensures ((w + at) % SPACE + 5) % SPACE == (at + 5 + w) % SPACE
  {
  }

  lemma JumpTargetIs(m: Bytes, at: nat, b0: byte, b1: byte, b2: byte, b3: byte)
    requires at + 5 <= |m| && m[at + 1] == b0 && m[at + 2] == b1 && m[at + 3] == b2 && m[at + 4] == b3
    ensures JumpTarget(m, at).Some? ==> JumpTarget(m, at) == Some((at + 5 + Word32([b0, b1, b2, b3])) % SPACE)
  {
    hide Word32;
    assert m[at + 1..at + 5] == [b0, b1, b2, b3];
  }

  /** A jump, padded with nops to the length of the bytes it replaces. */
  function Patch(at: nat, dest: int, len: nat): (b: Bytes)
    ensures |b| == if len > 5 then len else 5
  {
    Jump(at, dest) + Fill(if len > 5 then len - 5 else 0, NOP)
  }

  lemma PatchFive(at: nat, dest: int)
    ensures Patch(at, dest, 5) == Jump(at, dest)
  {
  }

  lemma LibraryBridge(m: Bytes, block: nat, frame: Bytes, jump: Bytes)
    requires |frame| == |jump| == 5 && block + 15 <= |m|
    ensures Overwrite(Overwrite(Overwrite(m, block, Fill(15, 0)), block, frame + Fill(2, 0)), block + 5, jump)
         == Overwrite(m, block, frame + jump + Fill(5, 0))
  {
    hide Fill;
  }

  lemma SavingBridge(m: Bytes, block: nat, frame: Bytes, fill: Bytes, jump: Bytes)
    requires |frame| == |jump| == 5 && |fill| >= 5 && block + 10 + |fill| <= |m|
    ensures Overwrite(Overwrite(Overwrite(Overwrite(m, block, Fill(15, 0)), block, frame + Fill(3, 0)),
                                block + 5, fill),
                      block + 5 + |fill|, jump)
         == Overwrite(m, block, frame + fill + jump)
  {
    hide Fill;
  }

  /** The bytes before the saved ones: mov edi,edi; push ebp; mov ebp,esp for a library
      function, nop; nop; pop eax; nop; nop otherwise. */
  function Frame(library: bool): (b: Bytes)
    ensures |b| == 5
  {
    if library then [0x89, 0xFF, 0x55, 0x8B, 0xEC] else [0x90, 0x90, 0x58, 0x90, 0x90]
  }

  lemma FrameStores(m: Bytes, at: nat)
    requires at + 8 <= |m|
    ensures Overwrite(Overwrite(Overwrite(m, at, Bytes32(0xFF89)), at + 2, Bytes32(0x55)), at + 3, Bytes32(0xEC8B))
         == Overwrite(m, at, Frame(true) + Fill(2, 0))
    ensures Overwrite(Overwrite(Overwrite(Overwrite(m, at, Bytes32(0x9090)), at + 2, Bytes32(0x58)),
                                at + 3, Bytes32(0x90)), at + 4, Bytes32(0x90))
         == Overwrite(m, at, Frame(false) + Fill(3, 0))
  {
    assert Bytes32(0xFF89) == [0x89, 0xFF, 0, 0] && Bytes32(0x55) == [0x55, 0, 0, 0];
    assert Bytes32(0xEC8B) == [0x8B, 0xEC, 0, 0] && Bytes32(0x9090) == [0x90, 0x90, 0, 0];
    assert Bytes32(0x58) == [0x58, 0, 0, 0] && Bytes32(0x90) == [0x90, 0, 0, 0];
  }

  lemma JumpOverNops(m: Bytes, nops: Bytes, at: nat, dest: int, len: nat)
    requires 1 <= len && at + len <= |m| && at + 5 <= |m| && |nops| == |m|
    requires forall k :: 0 <= k < |m| ==>
      nops[k] == if k == at then JMP else if at < k < at + len then NOP else m[k]
    ensures Overwrite(nops, at + 1, Bytes32((dest - (at + 1) - 4) % SPACE)) == Overwrite(m, at, Patch(at, dest, len))
  {
    hide Bytes32;
  }

  /** One HookFunction call: what to patch, where to send it, and the heap block that
      HeapAlloc returned for the bridge. */
  datatype Hook = Hook(target: nat, filter: int, block: nat, alignment: nat)
  {
    predicate Library() { alignment == WINDOWS_LIBRARY }

    /** Bytes of the target that the patch replaces. */
    function Stolen(): nat { if Library() then 5 else alignment + 5 }

    /** Where the bridge's jump back stands. */
    function BackJump(): nat { block + 5 + if Library() then 0 else alignment + 5 }

    /** Bytes of the block that are written: the requested 15 at least. */
    function BridgeLength(): nat { if Library() then 15 else alignment + 15 }

    predicate Fits(n: nat) {
      && 0 <= filter < SPACE && n <= SPACE
      && target + Stolen() <= n && block + BridgeLength() <= n
      && (target + Stolen() <= block || block + BridgeLength() <= target)
    }
  }

  /** The whole bridge for a target whose bytes are still those of m. */
  function Bridge(m: Bytes, h: Hook): (b: Bytes)
    requires h.Fits(|m|)
    ensures |b| == h.BridgeLength()
  {
    if h.Library() then Frame(true) + Jump(h.BackJump(), h.target + 5) + Fill(5, 0)
    else Frame(false) + m[h.target..h.target + h.Stolen()] + Jump(h.BackJump(), h.target + h.Stolen())
  }

  /** The memory after a hook. */
  function Hooked(m: Bytes, h: Hook): (r: Bytes)
    requires h.Fits(|m|)
    ensures |r| == |m|
  {
    Overwrite(Overwrite(m, h.target, Patch(h.target, h.filter, h.Stolen())), h.block, Bridge(m, h))
  }

  /** The 15 bytes that CreateGeneralBridge asks the heap for are enough exactly for library
      functions and without alignment. */
  lemma RequestSuffices(h: Hook)
    ensures h.BridgeLength() <= 15 <==> h.Library() || h.alignment == 0
    ensures !h.Library() ==> h.BridgeLength() == 15 + h.alignment
  {
  }

  /** A memory of bytes, addressed from 0. */
  class Memory {
    var cells: array<byte>

    constructor (n: nat)
      ensures fresh(cells) && cells.Length == n
    {
      cells := new byte[n];
    }

    /** *((unsigned long *) a) = v */
    method Store32(a: nat, v: int)
      requires a + 4 <= cells.Length
      modifies cells
      ensures cells[..] == Overwrite(old(cells[..]), a, Bytes32(v))
    {
      var b := Bytes32(v);
      cells[a] := b[0];
      cells[a + 1] := b[1];
      cells[a + 2] := b[2];
      cells[a + 3] := b[3];
    }

    /** make_jmp: a jump at `clobber`, the rest of `savelen` bytes turned into nops, and what
        was there before in `save`. */
    method MakeJmp(clobber: nat, destination: int, save: array<byte>, savelen: nat)
      requires 1 <= savelen <= save.Length && save != cells
      requires clobber + savelen <= cells.Length && clobber + 5 <= cells.Length
      modifies cells, save
      ensures save[..savelen] == old(cells[clobber..clobber + savelen])
      ensures cells[..] == Overwrite(old(cells[..]), clobber, Patch(clobber, destination, savelen))
    {
      save[0] := cells[clobber];
      cells[clobber] := JMP;
      var i := 1;
      while i < savelen
        invariant 1 <= i <= savelen
        invariant save[..i] == old(cells[clobber..clobber + i])
        invariant forall k :: 0 <= k < cells.Length ==>
          cells[k] == if k == clobber then JMP else if clobber < k < clobber + i then NOP else old(cells[k])
      {
        save[i] := cells[clobber + i];
        cells[clobber + i] := NOP;
        i := i + 1;
      }
      ghost var nops := cells[..];
      Store32(clobber + 1, (destination - (clobber + 1) - 4) % SPACE);
      JumpOverNops(old(cells[..]), nops, clobber, destination, savelen);
    }

    /** CreateStackFrame: four overlapping 32-bit stores that leave the five frame bytes,
        and zeros behind them. */
    method CreateStackFrame(at: nat, windowslib: bool)
      requires at + 8 <= cells.Length
      modifies cells
      ensures cells[..] == Overwrite(old(cells[..]), at, Frame(windowslib) + Fill(if windowslib then 2 else 3, 0))
    {
      if windowslib {
        Store32(at, 0xFF89);
        Store32(at + 2, 0x55);
        Store32(at + 3, 0xEC8B);
      } else {
        Store32(at, 0x9090);
        Store32(at + 2, 0x58);
        Store32(at + 3, 0x90);
        Store32(at + 4, 0x90);
      }
      FrameStores(old(cells[..]), at);
    }

    /** HEAP_ZERO_MEMORY */
    method ZeroBlock(block: nat, size: nat)
      requires block + size <= cells.Length
      modifies cells
      ensures cells[..] == Overwrite(old(cells[..]), block, Fill(size, 0))
    {
      for i := 0 to size
        invariant forall k :: 0 <= k < cells.Length ==> cells[k] == if block <= k < block + i then 0 else old(cells[k])
      {
        cells[block + i] := 0;
      }
    }

    /** The loop of CreateGeneralBridge that inserts the saved bytes. */
    method CopyBytes(at: nat, fill: array<byte>, len: nat)
      requires fill != cells && len <= fill.Length && at + len <= cells.Length
      modifies cells
      ensures cells[..] == Overwrite(old(cells[..]), at, fill[..len])
    {
      for i := 0 to len
        invariant forall k :: 0 <= k < cells.Length ==>
          cells[k] == if at <= k < at + i then fill[k - at] else old(cells[k])
      {
        cells[at + i] := fill[i];
      }
    }

    /** CreateGeneralBridge, with the frame created first; `block` is what HeapAlloc returned. */
    method CreateGeneralBridge(block: nat, fn: nat, fill: array<byte>, fillLen: nat, alignment: nat)
      requires fill != cells && fillLen <= fill.Length
      requires alignment == WINDOWS_LIBRARY ==> block + 15 <= cells.Length
      requires alignment != WINDOWS_LIBRARY ==> fillLen == alignment + 5 && block + 10 + fillLen <= cells.Length
      modifies cells
      ensures cells[..] == Overwrite(old(cells[..]), block,
                if alignment == WINDOWS_LIBRARY then Frame(true) + Jump(block + 5, fn + 5) + Fill(5, 0)
                else Frame(false) + fill[..fillLen] + Jump(block + 5 + fillLen, fn + alignment + 5))
    {
      hide Overwrite, Patch, Jump, Fill, Frame;
      var unused := new byte[5];
      var offset := 0;
      ZeroBlock(block, 15);
      CreateStackFrame(block, alignment == WINDOWS_LIBRARY);
      offset := offset + 5;
      if alignment != WINDOWS_LIBRARY {
        CopyBytes(block + offset, fill, fillLen);
        offset := offset + fillLen;
      }
      if alignment == WINDOWS_LIBRARY {
        MakeJmp(block + offset, fn + 5, unused, 5);
        PatchFive(block + 5, fn + 5);
        LibraryBridge(old(cells[..]), block, Frame(true), Jump(block + 5, fn + 5));
      } else {
        MakeJmp(block + offset, fn + alignment + 5, unused, 5);
        PatchFive(block + 5 + fillLen, fn + alignment + 5);
        SavingBridge(old(cells[..]), block, Frame(false), fill[..fillLen],
                     Jump(block + 5 + fillLen, fn + alignment + 5));
      }
    }

    /** HookFunction_General: patch the target, and build the bridge back. */
    method HookFunction(h: Hook)
      requires h.Fits(cells.Length)
      modifies cells
      ensures cells[..] == Hooked(old(cells[..]), h)
    {
      hide Overwrite, Patch, Jump, Fill, Frame;
      var len := if h.alignment != WINDOWS_LIBRARY then h.alignment + 5 else 5;
      var previous := new byte[len];
      MakeJmp(h.target, h.filter, previous, len);
      CreateGeneralBridge(h.block, h.target, previous, len, h.alignment);
    }

    /** InterpretAddress: the address that the bridge's last jump goes to. */
    method InterpretAddress(bridge: nat, alignment: nat) returns (address: int)
      requires bridge + (if alignment == WINDOWS_LIBRARY then 10 else alignment + 15) <= cells.Length
      ensures var jump := bridge + 5 + if alignment == WINDOWS_LIBRARY then 0 else alignment + 5;
              JumpTarget(cells[..], jump).Some? ==> JumpTarget(cells[..], jump) == Some(address)
    {
      hide Word32, JumpTarget;
      var offset := 4 + (alignment + 5) + 5;
      if alignment == WINDOWS_LIBRARY { offset := 9; }
      ghost var at := bridge + offset - 4;
      var b3, b2, b1, b0 :=
        cells[bridge + offset], cells[bridge + offset - 1], cells[bridge + offset - 2], cells[bridge + offset - 3];
      var dbg: int := b3;
      dbg := dbg * 256 % SPACE;
      dbg := (dbg + b2) % SPACE * 256 % SPACE;
      dbg := (dbg + b1) % SPACE * 256 % SPACE;
      dbg := (dbg + b0) % SPACE;
      offset := offset - 4;
      dbg := (dbg + (bridge + offset)) % SPACE;
      address := (dbg + 5) % SPACE;
      ShiftedBytes(b0, b1, b2, b3);
      AddFive(Word32([b0, b1, b2, b3]), at);
      JumpTargetIs(cells[..], at, b0, b1, b2, b3);
    }
  }
}
