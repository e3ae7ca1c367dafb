/** Offset reads, offset writes and truncation of the mounted filesystem, on top of a
    backend that only replaces whole files. */
module FuseIo {
  import opened Prelude
  import opened Paths
  import opened Pointer
  import opened Worktree
  import opened BlobGc

  /** `vec.resize(n, 0)`: byte `i` of the old content, or zero past its end. */
  function Resized(content: Bytes, n: nat): (r: Bytes)
    ensures |r| == n
  {
    seq(n, i requires 0 <= i < n => if i < |content| then content[i] else 0)
  }

  /** What a byte array holds after `data` is written at `offset`: the data there,
      the old bytes elsewhere, and zeros in a gap. */
  function Spliced(content: Bytes, offset: nat, data: Bytes): Bytes
  {
    var end := if offset + |data| > |content| then offset + |data| else |content|;
    seq(end, i requires 0 <= i < end =>
      if offset <= i < offset + |data| then data[i - offset]
      else if i < |content| then content[i] else 0)
  }

  /** `FuseHandler::write`: the read content is extended and overwritten in place. */
  method Splice(original: Bytes, offset: nat, data: Bytes) returns (content: Bytes)
    ensures content == Spliced(original, offset, data)
  {
    content := original;
    if offset > |content| {
      content := Resized(content, offset);
    }
    var end := offset + |data|;
    if end > |content| {
      content := Resized(content, end);
    }
    var i := 0;
    while i < |data|
      invariant 0 <= i <= |data|
      invariant |content| == |Spliced(original, offset, data)| && end <= |content|
      invariant forall k | 0 <= k < |content| ::
        content[k] == if offset <= k < offset + i then data[k - offset]
                      else if k < |original| then original[k] else 0
    {
      content := content[offset + i := data[i]];
      i := i + 1;
    }
  }

  /** `FuseHandler::read`: at most `size` bytes from `offset`, none past the end. */
  function ReadAt(content: Bytes, offset: nat, size: nat): Bytes
  {
    if offset >= |content| then []
    else content[offset..if offset + size < |content| then offset + size else |content|]
  }

  lemma SameSlice(a: Bytes, b: Bytes, from: nat, to: nat)
    requires from <= to <= |a| && to <= |b| && forall i | from <= i < to :: a[i] == b[i]
    ensures a[from..to] == b[from..to]
  {
  }

  /** What was written is read back, and nothing else changed. */
  lemma ReadAfterWrite(content: Bytes, offset: nat, data: Bytes, at: nat, size: nat)
    ensures ReadAt(Spliced(content, offset, data), offset, |data|) == data
    ensures at + size <= offset && at + size <= |content| ==>
              ReadAt(Spliced(content, offset, data), at, size) == ReadAt(content, at, size)
    ensures offset + |data| <= at && at + size <= |content| ==>
              ReadAt(Spliced(content, offset, data), at, size) == ReadAt(content, at, size)
  {
    var after := Spliced(content, offset, data);
    assert offset + |data| <= |after|;
    if data != [] {
      assert after[offset..offset + |data|] == data;
    }
    if (at + size <= offset || offset + |data| <= at) && at + size <= |content| && size > 0 {
      SameSlice(after, content, at, at + size);
    }
  }

  // ----- runs of filesystem calls --------------------------------------------------------

  datatype Call =
    | Create(at: Path)
    | WriteAt(at: Path, offset: nat, data: Bytes)
    | SetSize(at: Path, size: nat)
    | Unlink(at: Path)
    | Move(from: Path, to: Path)
    | MoveTree(from: Path, to: Path)
    | Commit

  function ReadOrEmpty(d: Disk, cs: Path): Bytes
  {
    match Read(d, cs)
    case Ok(content) => content
    case Err(_) => []
  }

  /** The whole-file operation a call makes. */
  function Translate(d: Disk, call: Call): Op
  {
    match call
    case Create(cs) => Write(cs, [])
    case WriteAt(cs, offset, data) => Write(cs, Spliced(ReadOrEmpty(d, cs), offset, data))
    case SetSize(cs, size) => Write(cs, Resized(ReadOrEmpty(d, cs), size))
    case Unlink(cs) => Delete(cs)
    case Move(from, to) => Rename(from, to)
    case MoveTree(from, to) => MoveDir(from, to)
    case Commit => Build
  }

  function BytesAt(v: map<Path, Bytes>, cs: Path): Bytes
  {
    if cs in v then v[cs] else []
  }

  /** The same calls on a map of plain byte arrays. */
  ghost function PlainCall(v: map<Path, Bytes>, call: Call): map<Path, Bytes>
  {
    match call
    case Create(cs) => v[cs := []]
    case WriteAt(cs, offset, data) => v[cs := Spliced(BytesAt(v, cs), offset, data)]
    case SetSize(cs, size) => if cs in v then v[cs := Resized(v[cs], size)] else v
    case Unlink(cs) => v - {cs}
    case Move(from, to) =>
      if from == to then v else if from in v then (v - {from})[to := v[from]] else v - {to}
    case MoveTree(from, to) => Relocated(v, from, to)
    case Commit => v
  }

  ghost function PlainCalls(v: map<Path, Bytes>, calls: seq<Call>): map<Path, Bytes>
  {
    if calls == [] then v else PlainCall(PlainCalls(v, calls[..|calls| - 1]), calls[|calls| - 1])
  }

  /** `truncate_file` reads first, and fails where there is nothing to read. */
  predicate Fails(d: Disk, call: Call)
  {
    call.SetSize? && Read(d, call.at).Err?
  }

  ghost predicate CallStep(s: Settings, d: Disk, call: Call, d': Disk)
  {
    if Fails(d, call) then d' == d else Step(s, d, Translate(d, call), d')
  }

  ghost predicate CallRun(s: Settings, ds: seq<Disk>, calls: seq<Call>)
  {
    |ds| == |calls| + 1 && forall i | 0 <= i < |calls| :: CallStep(s, ds[i], calls[i], ds[i + 1])
  }

  lemma CallRunInit(s: Settings, ds: seq<Disk>, calls: seq<Call>)
    requires CallRun(s, ds, calls) && calls != []
    ensures CallRun(s, ds[..|calls|], calls[..|calls| - 1])
    ensures CallStep(s, ds[|calls| - 1], calls[|calls| - 1], ds[|calls|])
  {
  }

  /** For any threshold and any run of calls, the mounted files hold what plain
      zero-filled byte arrays would, also while a file crosses the threshold. */
  lemma {:induction false} CallsActOnByteArrays(s: Settings, ds: seq<Disk>, calls: seq<Call>, seen: set<Bytes>)
    requires ValidSettings(s) && NoCollision(s, seen) && CallRun(s, ds, calls) && Inv(s, ds[0], seen)
    requires forall i | 0 <= i < |calls| :: Fails(ds[i], calls[i]) || Polite(Translate(ds[i], calls[i]), seen)
    ensures Inv(s, ds[|calls|], seen) && View(ds[|calls|]) == PlainCalls(View(ds[0]), calls)
    decreases |calls|
  {
    if calls != [] {
      var n := |calls| - 1;
      CallRunInit(s, ds, calls);
      CallsActOnByteArrays(s, ds[..n + 1], calls[..n], seen);
      if !Fails(ds[n], calls[n]) {
        StepKeeps(s, ds[n], Translate(ds[n], calls[n]), ds[n + 1], seen);
      }
      TranslateIsPlain(s, ds[n], calls[n], seen);
    }
  }

  lemma TranslateIsPlain(s: Settings, d: Disk, call: Call, seen: set<Bytes>)
    requires Inv(s, d, seen) && (Fails(d, call) || Polite(Translate(d, call), seen))
    ensures PlainCall(View(d), call) == if Fails(d, call) then View(d) else PlainStep(View(d), Translate(d, call))
  {
    if call.WriteAt? || call.SetSize? {
      ViewIff(s, d, seen, call.at);
      assert ReadOrEmpty(d, call.at) == BytesAt(View(d), call.at);
    }
  }

  /** A read returns the bytes from the offset on, as many as were asked for or as there are
      before the end of the file, and none past it. */
  lemma ReadAtBytes(content: Bytes, offset: nat, size: nat)
    ensures |ReadAt(content, offset, size)| ==
            if offset >= |content| then 0 else if |content| - offset < size then |content| - offset else size
    ensures forall i | 0 <= i < |ReadAt(content, offset, size)| :: ReadAt(content, offset, size)[i] == content[offset + i]
  {
  }

  lemma ReadAtSlice(content: Bytes, offset: nat, size: nat)
    requires offset <= |content|
    ensures ReadAt(content, offset, size) == content[offset..if offset + size < |content| then offset + size else |content|]
  {
  }

  lemma SlicesJoin(content: Bytes, a: nat, b: nat, c: nat)
    requires a <= b <= c <= |content|
    ensures content[a..b] + content[b..c] == content[a..c]
  {
  }

  /** Two reads, the second where the first one ended, are one read of both sizes. */
  lemma ConsecutiveReads(content: Bytes, offset: nat, a: nat, b: nat)
    requires offset <= |content|
    ensures offset + |ReadAt(content, offset, a)| <= |content|
    ensures ReadAt(content, offset, a) + ReadAt(content, offset + |ReadAt(content, offset, a)|, b) == ReadAt(content, offset, a + b)
  {
    var middle := if offset + a < |content| then offset + a else |content|;
    ReadAtSlice(content, offset, a);
    ReadAtSlice(content, middle, b);
    ReadAtSlice(content, offset, a + b);
    SlicesJoin(content, offset, middle, if offset + a + b < |content| then offset + a + b else |content|);
  }

  /** Cutting keeps the front, and growing appends zeros; a write replaces the bytes from its
      offset on, after growing the file up to it if need be. */
  lemma ResizedIs(content: Bytes, n: nat)
    ensures n <= |content| ==> Resized(content, n) == content[..n]
    ensures n >= |content| ==> Resized(content, n) == content + seq(n - |content|, _ => 0)
  {
  }

  lemma SplicedIs(content: Bytes, offset: nat, data: Bytes)
    ensures Spliced(content, offset, data) ==
            Resized(content, offset) + data + (if offset + |data| < |content| then content[offset + |data|..] else [])
  {
    var after, front := Spliced(content, offset, data), Resized(content, offset);
    var tail := if offset + |data| < |content| then content[offset + |data|..] else [];
    assert |after| == |front + data + tail|;
    forall i | 0 <= i < |after| ensures after[i] == (front + data + tail)[i] {
    }
  }
}
