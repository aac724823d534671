/**
 Whole runs of reads, writes, truncates and re-opens on one encrypted file, against the same
 run on a plain byte sequence; and the calls after which the file is lost.
 */
module Session {
  import opened Bytes
  import opened ByteFile
  import opened ContentEnc
  import opened DiskImage
  import opened EncFile

  datatype Op = Read(off: nat, length: nat) | Write(off: nat, data: bytes) | Truncate(size: nat) | Reopen

  // ---------- the plain file ----------

  function PlainStep(p: bytes, op: Op): bytes {
    match op
    case Read(_, _) => p
    case Write(off, data) => if |data| <= 131072 then Overlay(p, off, data) else p
    case Truncate(size) => Resize(p, size)
    case Reopen => p
  }

  function PlainOutput(p: bytes, op: Op): bytes {
    match op
    case Read(off, length) => if length <= 131072 then Clip(p, off, off + length) else []
    case _ => []
  }

  function PlainRun(p: bytes, ops: seq<Op>): bytes
    decreases |ops|
  {
    if ops == [] then p else PlainRun(PlainStep(p, ops[0]), ops[1..])
  }

  function PlainOutputs(p: bytes, ops: seq<Op>): seq<bytes>
    decreases |ops|
  {
    if ops == [] then [] else [PlainOutput(p, ops[0])] + PlainOutputs(PlainStep(p, ops[0]), ops[1..])
  }

  lemma PlainOutputsStep(p: bytes, ops: seq<Op>, before: seq<bytes>)
    requires ops != []
    ensures before + PlainOutputs(p, ops)
         == (before + [PlainOutput(p, ops[0])]) + PlainOutputs(PlainStep(p, ops[0]), ops[1..])
  {
  }

  // ---------- what may be asked of the encrypted file ----------

  /** What the client can tell about a handle, and whether it holds the ID of a header that is gone. */
  datatype State = State(view: View, stale: bool)

  function Step(be: ContentEnc, s: State, op: Op): State {
    match op
    case Read(_, length) => State(ReadView(s.view, length), s.stale)
    case Write(off, data) => State(WriteView(s.view, off, data), s.stale && |data| > 131072)
    case Truncate(size) => State(TruncateView(be, s.view, size), size == 0 && s.view.cached)
    case Reopen => State(View(s.view.plain, false), false)
  }

  /** Requests are not empty and can be addressed. */
  predicate Posed(be: ContentEnc, v: View, op: Op) {
    match op
    case Read(off, length) => 0 < length && Addressable(be, off + length)
    case Write(off, data) => data != [] && Addressable(be, off + |data|)
    case Truncate(size) => Addressable(be, Max(size, |v.plain|))
    case Reopen => true
  }

  /** With blocks of 4096 bytes and 16-byte nonces: whatever is not empty and stays below 2^62 bytes. */
  lemma PosedFiles(be: ContentEnc, v: View, op: Op)
    requires be.plainBS == 4096 && be.ivLen == 16 && |v.plain| <= 0x4000_0000_0000_0000
    requires op.Read? ==> 0 < op.length && op.off + op.length <= 0x4000_0000_0000_0000
    requires op.Write? ==> 0 < |op.data| && op.off + |op.data| <= 0x4000_0000_0000_0000
    requires op.Truncate? ==> op.size <= 0x4000_0000_0000_0000
    ensures Posed(be, v, op)
  {
    hide Addressable;
    match op
    case Read(off, length) => AddressableFiles(be, off + length);
    case Write(off, data) => AddressableFiles(be, off + |data|);
    case Truncate(size) => AddressableFiles(be, Max(size, |v.plain|));
    case Reopen =>
  }

  /**
   Writes start in reach of the end, and with the ID of a header that is gone a handle neither
   writes nor grows the file to inside a block.
   */
  predicate Allowed(be: ContentEnc, s: State, op: Op) {
    match op
    case Read(_, _) => true
    case Write(off, data) => |data| <= 131072 ==> !s.stale && StartsInReach(be, |s.view.plain|, off)
    case Truncate(size) => s.stale ==> Aligned(be, size)
    case Reopen => true
  }

  predicate AllowedRun(be: ContentEnc, s: State, ops: seq<Op>)
    decreases |ops|
  {
    ops == [] || (Posed(be, s.view, ops[0]) && Allowed(be, s, ops[0]) && AllowedRun(be, Step(be, s, ops[0]), ops[1..]))
  }

  /** Caching the file ID changes what is allowed next, never the bytes. */
  lemma StepIsPlainStep(be: ContentEnc, s: State, op: Op)
    ensures Step(be, s, op).view.plain == PlainStep(s.view.plain, op)
  {
  }

  ghost predicate InState(f: OpenFile, s: State)
    reads f, f.fd
  {
    f.Coherent() && f.ViewOf() == s.view && f.Stale() == s.stale
  }

  /**
   One operation. If it is allowed the handle takes the step, and the answer is that of the plain
   file; if not, and the cipher rejects zero-extended blocks, the file can no longer be read.
   */
  method Perform(f0: OpenFile, op: Op, ghost s: State) returns (f: OpenFile, out: bytes)
    requires InState(f0, s) && Posed(f0.be, s.view, op)
    modifies f0`ID, f0.fd
    ensures (f == f0 || fresh(f)) && f.be == f0.be && f.fd == f0.fd
    ensures Allowed(f0.be, s, op) ==> InState(f, Step(f0.be, s, op)) && out == PlainOutput(s.view.plain, op)
    ensures !Allowed(f0.be, s, op) && RejectsZeroExtension(f0.be.aead) ==> !Intact(f.be, f.fd.data)
  {
    hide Intact, Addressable, Overlay, Resize, ReadView, WriteView, StartsInReach, Clip, Plain, HeaderID,
         RejectsZeroExtension, Aligned, TruncateView;
    f, out := f0, [];
    match op {
      case Read(off, length) => out := f.ReadFile(off, length);
      case Write(off, data) =>
        TooLong(s.view, off, data);
        var _ := f.WriteFile(off, data);
      case Truncate(size) =>
        TruncateToZero(f.be, s.view);
        var _ := f.Truncate(size);
      case Reopen => f := new OpenFile(f0.be, f0.fd, f0.numCPU);
    }
  }

  lemma TooLong(v: View, off: nat, data: bytes)
    ensures |data| > 131072 ==> WriteView(v, off, data) == v
  {
  }

  lemma TruncateToZero(be: ContentEnc, v: View)
    ensures TruncateView(be, v, 0) == View([], v.cached) && Aligned(be, 0) && Intact(be, []) && Plain(be, []) == []
  {
  }

  lemma RunStep(be: ContentEnc, s: State, ops: seq<Op>)
    requires ops != [] && AllowedRun(be, s, ops)
    ensures Posed(be, s.view, ops[0]) && Allowed(be, s, ops[0]) && AllowedRun(be, Step(be, s, ops[0]), ops[1..])
    ensures PlainRun(s.view.plain, ops) == PlainRun(Step(be, s, ops[0]).view.plain, ops[1..])
    ensures RunState(be, s, ops) == RunState(be, Step(be, s, ops[0]), ops[1..])
  {
    StepIsPlainStep(be, s, ops[0]);
  }

  function RunState(be: ContentEnc, s: State, ops: seq<Op>): State
    decreases |ops|
  {
    if ops == [] then s else RunState(be, Step(be, s, ops[0]), ops[1..])
  }

  /** The state of a handle just opened. */
  function Opened(p: bytes): State { State(View(p, false), false) }

  /**
   Every allowed run, on any readable file: what the reads return and what the file holds at the
   end are those of the plain byte sequence.
   */
  method Run(be: ContentEnc, fd: BackingFile, numCPU: nat, ops: seq<Op>) returns (f: OpenFile, outs: seq<bytes>)
    requires Intact(be, fd.data) && AllowedRun(be, Opened(Plain(be, fd.data)), ops)
    modifies fd
    ensures Intact(be, fd.data)
    ensures Plain(be, fd.data) == PlainRun(old(Plain(be, fd.data)), ops)
    ensures outs == PlainOutputs(old(Plain(be, fd.data)), ops)
    ensures fresh(f) && f.be == be && f.fd == fd && InState(f, RunState(be, Opened(old(Plain(be, fd.data))), ops))
  {
    hide Intact, Step, Posed, Allowed, AllowedRun, PlainStep, PlainOutput, PlainRun, PlainOutputs, Plain, HeaderID,
         RunState;
    f := new OpenFile(be, fd, numCPU);
    ghost var p0 := Plain(be, fd.data);
    ghost var s := Opened(p0);
    outs := [];
    var i := 0;
    assert ops[0..] == ops;
    while i < |ops|
      invariant i <= |ops| && fresh(f) && f.be == be && f.fd == fd && InState(f, s)
      invariant AllowedRun(be, s, ops[i..]) && RunState(be, Opened(p0), ops) == RunState(be, s, ops[i..])
      invariant PlainRun(p0, ops) == PlainRun(s.view.plain, ops[i..])
      invariant PlainOutputs(p0, ops) == outs + PlainOutputs(s.view.plain, ops[i..])
    {
      assert ops[i..][0] == ops[i] && ops[i..][1..] == ops[i + 1..];
      RunStep(be, s, ops[i..]);
      StepIsPlainStep(be, s, ops[i]);
      PlainOutputsStep(s.view.plain, ops[i..], outs);
      var out;
      f, out := Perform(f, ops[i], s);
      s := Step(be, s, ops[i]);
      outs := outs + [out];
      i := i + 1;
    }
    assert ops[i..] == [];
    RunsEnd(be, s);
    assert outs + [] == outs;
  }

  lemma RunsEnd(be: ContentEnc, s: State)
    ensures PlainRun(s.view.plain, []) == s.view.plain && PlainOutputs(s.view.plain, []) == []
    ensures RunState(be, s, []) == s
  {
  }

  /** No more can be allowed: after an allowed run one more operation keeps the file readable iff it is allowed. */
  method RunAndOneMore(be: ContentEnc, fd: BackingFile, numCPU: nat, ops: seq<Op>, op: Op)
    requires Intact(be, fd.data) && AllowedRun(be, Opened(Plain(be, fd.data)), ops) && RejectsZeroExtension(be.aead)
    requires Posed(be, RunState(be, Opened(Plain(be, fd.data)), ops).view, op)
    modifies fd
    ensures Intact(be, fd.data) <==> AllowedRun(be, Opened(old(Plain(be, fd.data))), ops + [op])
  {
    hide Intact, Step, Posed, Allowed, AllowedRun, PlainRun, PlainOutputs, Plain, HeaderID, RunState,
         RejectsZeroExtension;
    ghost var s0 := Opened(Plain(be, fd.data));
    var f, _ := Run(be, fd, numCPU, ops);
    AllowedOneMore(be, s0, ops, op);
    var _, _ := Perform(f, op, RunState(be, s0, ops));
  }

  lemma {:induction false} AllowedOneMore(be: ContentEnc, s: State, ops: seq<Op>, op: Op)
    requires AllowedRun(be, s, ops) && Posed(be, RunState(be, s, ops).view, op)
    ensures AllowedRun(be, s, ops + [op]) <==> Allowed(be, RunState(be, s, ops), op)
    decreases |ops|
  {
    hide Allowed, Posed, Step;
    if ops == [] {
      assert [op][1..] == [];
      assert AllowedRun(be, Step(be, s, op), []);
    } else {
      assert (ops + [op])[0] == ops[0] && (ops + [op])[1..] == ops[1..] + [op];
      AllowedOneMore(be, Step(be, s, ops[0]), ops[1..], op);
    }
  }

  // ---------- the two calls that lose a file ----------

  /** Truncate to zero, then write anywhere: the file stays readable iff no ID was cached. */
  method TruncateToZeroThenWrite(f: OpenFile, off: nat, data: bytes)
    requires f.Valid() && 0 < |data| <= 131072
    requires Addressable(f.be, |f.Contents()|) && Addressable(f.be, off + |data|)
    modifies f`ID, f.fd
    ensures Intact(f.be, f.fd.data) <==> old(f.ID).None?
    ensures old(f.ID).None? ==> Plain(f.be, f.fd.data) == Overlay([], off, data)
  {
    hide Intact, Addressable, StartsInReach, NoWrap, CipherStart, TruncateView, Overlay, Aligned, RejectsZeroExtension;
    EmptyInReach(f.be, off);
    var _ := f.Truncate(0);
    EmptyIsIntact(f.be);
    var _ := f.WriteFile(off, data);
  }

  /** An empty file ends on a block boundary, so a write may start anywhere. */
  lemma EmptyInReach(be: ContentEnc, off: nat)
    ensures StartsInReach(be, 0, off)
  {
  }

  lemma EmptyIsIntact(be: ContentEnc)
    ensures Intact(be, []) && Plain(be, []) == []
  {
  }

  /**
   With a cipher that rejects zero-extended blocks, a write leaves the file readable iff it
   starts in reach of the end; and then it is the write on the plain bytes.
   */
  method WriteAnywhere(f: OpenFile, off: nat, data: bytes)
    requires f.Valid() && RejectsZeroExtension(f.be.aead)
    requires 0 < |data| <= 131072 && Addressable(f.be, off + |data|)
    modifies f`ID, f.fd
    ensures Intact(f.be, f.fd.data) <==> StartsInReach(f.be, |old(f.Contents())|, off)
    ensures Intact(f.be, f.fd.data) ==> Plain(f.be, f.fd.data) == Overlay(old(f.Contents()), off, data)
  {
    hide Intact, Addressable, StartsInReach, NoWrap, CipherStart, RejectsZeroExtension, Overlay;
    AddressableRange(f.be, off, |data|);
    var _, _ := f.DoWrite(data, off);
  }
}
