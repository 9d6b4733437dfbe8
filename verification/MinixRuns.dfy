/**
 * Runs of seeks, reads, writes and truncations of the files of a Minix file system.
 */
module MinixRuns {
  import opened Common
  import opened MinixFile
  import opened MinixTruncate
  import opened MinixZones
  import MinixSpace

  /** struct vfile: an open file and its position. */
  datatype Handle = Handle(ino: nat, pos: nat)

  datatype Sys = Sys(fs: Fs, files: map<nat, Handle>)

  datatype Op =
    | SeekTo(h: nat, offset: nat, whence: Whence)
    | ReadSome(h: nat, n: nat)
    | WriteSome(h: nat, data: seq<byte>)
    | Empty(ino: nat)

  datatype Reply = At(pos: Option<nat>) | Got(bytes: seq<byte>) | Accepted(w: nat, ending: Ending) | Done

  ghost predicate SysOk(s: Sys) {
    FilesOk(s.fs) && forall h :: h in s.files ==> s.files[h].pos <= MAX_ZONES * ZONE_SIZE
  }

  /** Handles are of files that exist. */
  predicate Legal(contents: map<nat, seq<byte>>, files: map<nat, Handle>, op: Op) {
    if op.Empty? then op.ino in contents else op.h in files && files[op.h].ino in contents
  }

  /**
   A write begins where it leaves no hole, finds its tables and has only zeros
   to fill a gap with; a read past the end finds only zeros there; a truncation
   finds the flags of its zones in the first block of the bitmap.
   */
  ghost predicate Sound(s: Sys, op: Op)
    requires Legal(Abs(s.fs), s.files, op)
  {
    match op
    case WriteSome(h, data) =>
      var f := s.files[h];
      && Reaches(s.fs, f.ino, f.pos) && Blank(s.fs, f.ino, s.fs.inodes[f.ino].size, f.pos)
      && !MinixSpace.Strays(s.fs, WriteFrom(s.fs, f.ino, f.pos, data).0, f.ino, f.pos, data)
    case ReadSome(h, n) =>
      var f := s.files[h];
      var m := BeforeHole(f.pos, n, HoleFrom(s.fs, f.ino, 0));
      s.fs.inodes[f.ino].size < f.pos ==> Blank(s.fs, f.ino, f.pos, f.pos + m)
    case Empty(ino) => Truncate(s.fs, ino).Some?
    case _ => true
  }

  /** With nothing but zeros past the ends of files, only holes, lost lookups and stray flags are left to look for. */
  lemma TailsSound(s: Sys, op: Op)
    requires ZeroTails(s.fs) && Legal(Abs(s.fs), s.files, op)
    ensures op.ReadSome? || op.SeekTo? ==> Sound(s, op)
    ensures op.WriteSome? ==>
              var f := s.files[op.h];
              Sound(s, op) <==>
                && Reaches(s.fs, f.ino, f.pos)
                && !MinixSpace.Strays(s.fs, WriteFrom(s.fs, f.ino, f.pos, op.data).0, f.ino, f.pos, op.data)
  {
  }

  function Moved(files: map<nat, Handle>, h: nat, pos: nat): map<nat, Handle>
    requires h in files
  {
    files[h := files[h].(pos := pos)]
  }

  ghost function Step(s: Sys, op: Op): (Sys, Reply)
    requires Legal(Abs(s.fs), s.files, op) && Sound(s, op)
  {
    match op
    case SeekTo(h, offset, whence) =>
      var f := s.files[h];
      var to := SeekTarget(s.fs.inodes[f.ino].size, f.pos, offset, whence);
      (s.(files := if to.Some? then Moved(s.files, h, to.value) else s.files), At(to))
    case ReadSome(h, n) =>
      var f := s.files[h];
      var r := Read(s.fs, f.ino, f.pos, n);
      (s.(files := Moved(s.files, h, f.pos + |r|)), Got(r))
    case WriteSome(h, data) =>
      var f := s.files[h];
      var (fs', w, ending) := Write(s.fs, f.ino, f.pos, data);
      (Sys(fs', Moved(s.files, h, f.pos + w)), Accepted(w, ending))
    case Empty(ino) => (s.(fs := Truncate(s.fs, ino).value), Done)
  }

  /**
   The same on files that are byte sequences. The reply given says how much of
   a write there was room for, and how many zeros a read past the end found.
   */
  datatype Flat = Flat(contents: map<nat, seq<byte>>, files: map<nat, Handle>)

  function FlatRead(c: seq<byte>, pos: nat, n: nat, room: Reply): seq<byte> {
    if pos <= |c| then c[pos..if pos + n < |c| then pos + n else |c|]
    else Zeros(if room.Got? then |room.bytes| else 0)
  }

  function FlatStep(s: Flat, op: Op, room: Reply): (Flat, Reply)
    requires Legal(s.contents, s.files, op)
  {
    match op
    case SeekTo(h, offset, whence) =>
      var f := s.files[h];
      var to := SeekTarget(|s.contents[f.ino]|, f.pos, offset, whence);
      (s.(files := if to.Some? then Moved(s.files, h, to.value) else s.files), At(to))
    case ReadSome(h, n) =>
      var f := s.files[h];
      var bytes := FlatRead(s.contents[f.ino], f.pos, n, room);
      (s.(files := Moved(s.files, h, f.pos + |bytes|)), Got(bytes))
    case WriteSome(h, data) =>
      var f := s.files[h];
      var w := if room.Accepted? && room.w <= |data| && !room.ending.Complete? then room.w else |data|;
      var c := Spliced(Padded(s.contents[f.ino], f.pos), f.pos, data[..w]);
      var ending := if room.Accepted? then room.ending else Complete;
      (Flat(s.contents[f.ino := c], Moved(s.files, h, f.pos + w)), Accepted(w, ending))
    case Empty(ino) => (s.(contents := s.contents[ino := []]), Done)
  }

  ghost function Abs(fs: Fs): map<nat, seq<byte>> {
    map ino | ino in fs.inodes :: Content(fs, ino)
  }

  /** A write is sound exactly if it comes to no block of others, leaves the files in order, and fills gaps with
      zeros. */
  lemma WriteSoundIff(s: Sys, h: nat, data: seq<byte>, fs': Fs, w: nat, ending: Ending)
    requires SysOk(s) && Legal(Abs(s.fs), s.files, WriteSome(h, data))
    requires (fs', w, ending) == Write(s.fs, s.files[h].ino, s.files[h].pos, data)
    ensures Sound(s, WriteSome(h, data)) <==>
              && !ending.Lost? && FilesOk(fs')
              && var f := s.files[h];
                 Held(s.fs, f.ino, f.pos) == Padded(Content(s.fs, f.ino), f.pos)
  {
    var f := s.files[h];
    HeldPaddedIff(s.fs, f.ino, f.pos);
    var (fs1, w1, ending1) := WriteFrom(s.fs, f.ino, f.pos, data);
    MinixSpace.WriteEnding(s.fs, f.ino, f.pos, data, fs1, w1, ending1);
    if !ending.Lost? {
      WriteRefines(s.fs, f.ino, f.pos, data, fs', w, ending);
    }
  }

  lemma WriteAbs(fs: Fs, ino: nat, pos: nat, data: seq<byte>, fs': Fs, w: nat, ending: Ending)
    requires FilesOk(fs) && ino in fs.inodes && (fs', w, ending) == Write(fs, ino, pos, data) && !ending.Lost?
    requires Held(fs, ino, pos) == Padded(Content(fs, ino), pos)
    ensures w <= |data| && (ending.Complete? ==> w == |data|)
    ensures Abs(fs') == Abs(fs)[ino := Spliced(Padded(Abs(fs)[ino], pos), pos, data[..w])]
  {
    hide Write, FilesOk, Content;
    WriteRefines(fs, ino, pos, data, fs', w, ending);
  }

  lemma TruncateAbs(fs: Fs, ino: nat, fs': Fs)
    requires FilesOk(fs) && ino in fs.inodes && Truncate(fs, ino) == Some(fs')
    ensures FilesOk(fs') && Abs(fs') == Abs(fs)[ino := []]
  {
    TruncateRefines(fs, ino, fs');
  }

  lemma SeekStep(s: Sys, h: nat, offset: nat, whence: Whence, s': Sys, reply: Reply)
    requires SysOk(s) && Legal(Abs(s.fs), s.files, SeekTo(h, offset, whence))
    requires (s', reply) == Step(s, SeekTo(h, offset, whence))
    ensures SysOk(s')
    ensures FlatStep(Flat(Abs(s.fs), s.files), SeekTo(h, offset, whence), reply) == (Flat(Abs(s'.fs), s'.files), reply)
  {
    SizeBound(s.fs, s.files[h].ino);
  }

  lemma ReadReply(fs: Fs, ino: nat, pos: nat, n: nat, r: seq<byte>, c: seq<byte>)
    requires FilesOk(fs) && ino in fs.inodes && pos <= MAX_ZONES * ZONE_SIZE && r == Read(fs, ino, pos, n)
    requires c == Content(fs, ino)
    requires pos > |c| ==> Blank(fs, ino, pos, pos + BeforeHole(pos, n, HoleFrom(fs, ino, 0)))
    ensures r == FlatRead(c, pos, n, Got(r))
  {
    hide Read, FilesOk;
    if pos <= |c| {
      ReadRefines(fs, ino, pos, n);
    } else {
      ReadPastEnd(fs, ino, pos, n);
      BlankBytes(fs, ino, pos, BeforeHole(pos, n, HoleFrom(fs, ino, 0)));
    }
  }

  lemma ReadStep(s: Sys, h: nat, n: nat, s': Sys, reply: Reply)
    requires SysOk(s) && Legal(Abs(s.fs), s.files, ReadSome(h, n)) && Sound(s, ReadSome(h, n))
    requires (s', reply) == Step(s, ReadSome(h, n))
    ensures SysOk(s')
    ensures FlatStep(Flat(Abs(s.fs), s.files), ReadSome(h, n), reply) == (Flat(Abs(s'.fs), s'.files), reply)
  {
    var f := s.files[h];
    hide Read, FilesOk, Content, FlatRead;
    ReadBound(s.fs, f.ino, f.pos, n);
    ReadReply(s.fs, f.ino, f.pos, n, reply.bytes, Content(s.fs, f.ino));
  }

  lemma WriteStep(s: Sys, h: nat, data: seq<byte>, s': Sys, reply: Reply)
    requires SysOk(s) && Legal(Abs(s.fs), s.files, WriteSome(h, data)) && Sound(s, WriteSome(h, data))
    requires (s', reply) == Step(s, WriteSome(h, data))
    ensures SysOk(s')
    ensures FlatStep(Flat(Abs(s.fs), s.files), WriteSome(h, data), reply) == (Flat(Abs(s'.fs), s'.files), reply)
  {
    var f := s.files[h];
    var (fs', w, ending) := Write(s.fs, f.ino, f.pos, data);
    hide FilesOk, Content, Held, Write, Spliced, Padded, Sound, FlatStep, SysOk, Abs;
    WriteStays(s, h, data, fs', w, ending);
    FlatWrites(Abs(s.fs), s.files, h, data, w, ending);
  }

  lemma WriteStays(s: Sys, h: nat, data: seq<byte>, fs': Fs, w: nat, ending: Ending)
    requires SysOk(s) && Legal(Abs(s.fs), s.files, WriteSome(h, data)) && Sound(s, WriteSome(h, data))
    requires (fs', w, ending) == Write(s.fs, s.files[h].ino, s.files[h].pos, data)
    ensures SysOk(Sys(fs', Moved(s.files, h, s.files[h].pos + w)))
    ensures w <= |data| && (ending.Complete? ==> w == |data|)
    ensures var f := s.files[h];
            Abs(fs') == Abs(s.fs)[f.ino := Spliced(Padded(Abs(s.fs)[f.ino], f.pos), f.pos, data[..w])]
  {
    hide FilesOk, Content, Held, Write, Spliced, Padded, Sound;
    var f := s.files[h];
    WriteSoundIff(s, h, data, fs', w, ending);
    WriteAbs(s.fs, f.ino, f.pos, data, fs', w, ending);
    PositionBound(s.fs, f.ino, f.pos, 0, data);
  }

  lemma FlatWrites(c: map<nat, seq<byte>>, files: map<nat, Handle>, h: nat, data: seq<byte>, w: nat, ending: Ending)
    requires Legal(c, files, WriteSome(h, data)) && w <= |data| && (ending.Complete? ==> w == |data|)
    ensures var f := files[h];
            FlatStep(Flat(c, files), WriteSome(h, data), Accepted(w, ending)) ==
            (Flat(c[f.ino := Spliced(Padded(c[f.ino], f.pos), f.pos, data[..w])], Moved(files, h, f.pos + w)),
            Accepted(w, ending))
  {
  }

  /** How much of a write is accepted, and how much a read past the end returns, can be told from the volume. */
  ghost predicate Counted(s: Sys, op: Op, reply: Reply)
    requires Legal(Abs(s.fs), s.files, op)
  {
    match op
    case WriteSome(h, data) =>
      reply.Accepted? && reply.w == MinixSpace.Accepted(s.fs, s.files[h].ino, s.files[h].pos, data)
    case ReadSome(h, n) =>
      var f := s.files[h];
      reply.Got? &&
      (s.fs.inodes[f.ino].size < f.pos ==> |reply.bytes| == BeforeHole(f.pos, n, HoleFrom(s.fs, f.ino, 0)))
    case _ => true
  }

  /** Zeros past the ends of files stay. */
  lemma StepTails(s: Sys, op: Op, s': Sys, reply: Reply)
    requires SysOk(s) && Legal(Abs(s.fs), s.files, op) && Sound(s, op) && (s', reply) == Step(s, op)
    ensures ZeroTails(s.fs) ==> ZeroTails(s'.fs)
  {
    if op.WriteSome? {
      var f := s.files[op.h];
      WriteSoundIff(s, op.h, op.data, s'.fs, reply.w, reply.ending);
      WriteRefines(s.fs, f.ino, f.pos, op.data, s'.fs, reply.w, reply.ending);
    } else if op.Empty? {
      TruncateRefines(s.fs, op.ino, s'.fs);
    }
  }

  lemma StepCounted(s: Sys, op: Op, s': Sys, reply: Reply)
    requires SysOk(s) && Legal(Abs(s.fs), s.files, op) && Sound(s, op) && (s', reply) == Step(s, op)
    ensures Counted(s, op, reply)
  {
    if op.WriteSome? {
      var f := s.files[op.h];
      var (fs1, w, ending) := WriteFrom(s.fs, f.ino, f.pos, op.data);
      MinixSpace.WriteAccepts(s.fs, f.ino, f.pos, op.data, fs1, w, ending);
    } else if op.ReadSome? {
      var f := s.files[op.h];
      if s.fs.inodes[f.ino].size < f.pos {
        ReadPastEnd(s.fs, f.ino, f.pos, op.n);
      }
    }
  }

  /** Files in zones behave like byte sequences. */
  lemma StepRefines(s: Sys, op: Op, s': Sys, reply: Reply)
    requires SysOk(s) && Legal(Abs(s.fs), s.files, op) && Sound(s, op) && (s', reply) == Step(s, op)
    ensures SysOk(s') && FlatStep(Flat(Abs(s.fs), s.files), op, reply) == (Flat(Abs(s'.fs), s'.files), reply)
  {
    match op {
      case SeekTo(h, offset, whence) =>
        SeekStep(s, h, offset, whence, s', reply);
      case ReadSome(h, n) =>
        ReadStep(s, h, n, s', reply);
      case WriteSome(h, data) =>
        WriteStep(s, h, data, s', reply);
      case Empty(ino) =>
        TruncateAbs(s.fs, ino, s'.fs);
    }
  }

  /** A run of sound steps. */
  ghost predicate SoundRun(s: Sys, ops: seq<Op>)
    decreases |ops|
  {
    ops == [] || (Legal(Abs(s.fs), s.files, ops[0]) && Sound(s, ops[0]) && SoundRun(Step(s, ops[0]).0, ops[1..]))
  }

  ghost function Replies(s: Sys, ops: seq<Op>): (r: seq<Reply>)
    requires SoundRun(s, ops)
    ensures |r| == |ops|
    decreases |ops|
  {
    if ops == [] then [] else [Step(s, ops[0]).1] + Replies(Step(s, ops[0]).0, ops[1..])
  }

  ghost function After(s: Sys, ops: seq<Op>): Sys
    requires SoundRun(s, ops)
    decreases |ops|
  {
    if ops == [] then s else After(Step(s, ops[0]).0, ops[1..])
  }

  ghost predicate RunCounted(s: Sys, ops: seq<Op>)
    requires SoundRun(s, ops)
    decreases |ops|
  {
    ops == [] || (Counted(s, ops[0], Step(s, ops[0]).1) && RunCounted(Step(s, ops[0]).0, ops[1..]))
  }

  /** `replies` is how the byte-sequence files answer the run, given the room there was, and `s'` where it
      leaves them. */
  predicate FlatRun(s: Flat, ops: seq<Op>, replies: seq<Reply>, s': Flat)
    requires |replies| == |ops|
    decreases |ops|
  {
    if ops == [] then s' == s
    else
      && Legal(s.contents, s.files, ops[0])
      && var (s1, reply) := FlatStep(s, ops[0], replies[0]);
         reply == replies[0] && FlatRun(s1, ops[1..], replies[1..], s')
  }

  /** Every run of seeks, reads, writes and truncations, over any open files and from any position, is one of
      byte sequences. */
  lemma {:induction false} RunRefines(s: Sys, ops: seq<Op>)
    requires SysOk(s) && SoundRun(s, ops)
    ensures var s' := After(s, ops);
            SysOk(s') && FlatRun(Flat(Abs(s.fs), s.files), ops, Replies(s, ops), Flat(Abs(s'.fs), s'.files))
    ensures RunCounted(s, ops)
    decreases |ops|
  {
    if ops != [] {
      hide Step, FlatStep, Sound, SysOk, Abs, Counted;
      var (s1, reply) := Step(s, ops[0]);
      StepRefines(s, ops[0], s1, reply);
      StepCounted(s, ops[0], s1, reply);
      RunRefines(s1, ops[1..]);
      assert Replies(s, ops)[1..] == Replies(s1, ops[1..]);
    }
  }
}
