/** An in-memory stand-in for an open target: its bytes, the file position
    that `read`, `write` and `lseek` move, and a schedule of I/O calls that
    fail. Reads are truthful: they return what the medium holds. */
module FakeDisk {
  import opened Common

  /** A block device has a fixed extent; a regular file grows when written
      past its end. */
  datatype Kind = BlockDevice | RegularFile

  /** The state of an open target: `calls` counts the reads and writes served
      so far and `faults` lists the call numbers that fail with an I/O error
      (-1) without any effect on the medium. */
  datatype Medium = Medium(kind: Kind, content: seq<byte>, pos: nat, calls: nat, faults: set<nat>)

  /** `s` with `data` written from offset `at`; a gap before `at` reads as zeros. */
  function Overwrite(s: seq<byte>, at: nat, data: seq<byte>): (r: seq<byte>)
    ensures |r| == Max(|s|, at + |data|)
  {
    var head := if at <= |s| then s[..at] else s + Zeros(at - |s|);
    var tail := if at + |data| <= |s| then s[at + |data|..] else [];
    head + data + tail
  }

  /** Byte by byte: `data` inside its range, the old bytes elsewhere, zeros
      in a gap past the old end. */
  lemma OverwriteAt(s: seq<byte>, at: nat, data: seq<byte>)
    ensures forall k :: 0 <= k < |Overwrite(s, at, data)| ==>
      Overwrite(s, at, data)[k] == (if at <= k < at + |data| then data[k - at] else if k < |s| then s[k] else 0)
  {
    var head := if at <= |s| then s[..at] else s + Zeros(at - |s|);
    var tail := if at + |data| <= |s| then s[at + |data|..] else [];
    assert Overwrite(s, at, data) == head + data + tail;
  }

  /** Writing back, at the same offset, the bytes a write covered undoes it. */
  lemma OverwriteRestore(s: seq<byte>, at: nat, data: seq<byte>)
    requires at + |data| <= |s|
    ensures Overwrite(Overwrite(s, at, data), at, s[at..at + |data|]) == s
  {
    var s1 := Overwrite(s, at, data);
    assert s1 == s[..at] + data + s[at + |data|..];
    assert s1[..at] == s[..at];
    assert s1[at + |data|..] == s[at + |data|..];
    assert s == s[..at] + s[at..at + |data|] + s[at + |data|..];
  }

  /** What `read(fd, buf, count)` returns: -1 on a failing call, 0 at or past
      the end, otherwise as many bytes as remain, up to `count`. */
  function ReadCount(m: Medium, count: nat): (n: int)
    ensures -1 <= n <= count
    ensures n > 0 ==> m.pos + n <= |m.content|
  {
    if m.calls in m.faults then -1
    else if m.pos >= |m.content| then 0
    else Min(count, |m.content| - m.pos)
  }

  /** The `n` bytes of `c` from offset `from` on, front to back. */
  function Bytes(c: seq<byte>, from: nat, n: nat): (d: seq<byte>)
    requires from + n <= |c|
    ensures |d| == n
    decreases n
  {
    if n == 0 then [] else [c[from]] + Bytes(c, from + 1, n - 1)
  }

  /** They are the slice `c[from..from + n]`. */
  lemma {:induction false} BytesIsSlice(c: seq<byte>, from: nat, n: nat)
    requires from + n <= |c|
    ensures Bytes(c, from, n) == c[from..from + n]
    decreases n
  {
    if n > 0 {
      BytesIsSlice(c, from + 1, n - 1);
      assert c[from..from + n] == [c[from]] + c[from + 1..from + n];
    }
  }

  /** The bytes such a read delivers. */
  function ReadData(m: Medium, count: nat): (d: seq<byte>)
    ensures |d| == Max(ReadCount(m, count), 0) && |d| <= count
  {
    var n := ReadCount(m, count);
    if n > 0 then Bytes(m.content, m.pos, n) else []
  }

  /** The medium after that read: the position moves past what was read. */
  function AfterRead(m: Medium, count: nat): Medium
  {
    var n := ReadCount(m, count);
    m.(pos := if n > 0 then m.pos + n else m.pos, calls := m.calls + 1)
  }

  /** What `write(fd, buf, count)` returns: -1 on a failing call; a regular
      file takes all `count` bytes; a block device takes what fits before its
      end and refuses (-1, no space) a write that starts at or past it. */
  function WriteCount(m: Medium, count: nat): (n: int)
    ensures -1 <= n <= count
  {
    if m.calls in m.faults then -1
    else if m.kind == RegularFile then count
    else if count == 0 then 0
    else if m.pos >= |m.content| then -1
    else Min(count, |m.content| - m.pos)
  }

  /** The medium after writing `data` at the current position. */
  function AfterWrite(m: Medium, data: seq<byte>): Medium
  {
    var n := WriteCount(m, |data|);
    if n > 0 then m.(content := Overwrite(m.content, m.pos, data[..n]), pos := m.pos + n, calls := m.calls + 1)
    else m.(calls := m.calls + 1)
  }

  /** A buffer after a read placed `data` at its start; the rest is untouched. */
  function Fill(buf: seq<byte>, data: seq<byte>): (r: seq<byte>)
    requires |data| <= |buf|
    ensures |r| == |buf| && r[..|data|] == data && r[|data|..] == buf[|data|..]
  {
    data + buf[|data|..]
  }

  /** `st_size`: the length of a regular file, 0 for a block device. */
  function StSize(m: Medium): (size: nat)
    ensures m.kind == RegularFile ==> size == |m.content|
    ensures m.kind == BlockDevice ==> size == 0
  {
    if m.kind == RegularFile then |m.content| else 0
  }

  /** A target opened by path: the medium plus what `fstat` and `BLKGETSIZE`
      report about it. */
  class Device {
    const kind: Kind
    const faults: set<nat>
    /** `st_blksize`. */
    const blkSize: nat
    /** The `BLKGETSIZE` answer, None when the ioctl fails. */
    const sectors: Option<nat>
    var content: seq<byte>
    var pos: nat
    var calls: nat

    function State(): Medium
      reads this
    {
      Medium(kind, content, pos, calls, faults)
    }

    /** `st_size` of the device in its present state. */
    function StatSize(): (size: nat)
      reads this
      ensures size == StSize(State())
    {
      StSize(State())
    }

    /** `ioctl(BLKGETSIZE)`: a block device answers with its sector count;
        on a regular file the request fails (`ENOTTY`). */
    function SectorQuery(): (r: Option<nat>)
      ensures kind == RegularFile ==> r.None?
      ensures kind == BlockDevice ==> r == sectors
    {
      if kind == RegularFile then None else sectors
    }

    constructor (kind: Kind, content: seq<byte>, blkSize: nat, sectors: Option<nat>, faults: set<nat>)
      ensures State() == Medium(kind, content, 0, 0, faults)
      ensures this.blkSize == blkSize && this.sectors == sectors
    {
      this.kind := kind;
      this.faults := faults;
      this.blkSize := blkSize;
      this.sectors := sectors;
      this.content := content;
      this.pos := 0;
      this.calls := 0;
    }

    /** `open`: a fresh descriptor starts at offset 0. */
    method Open()
      modifies this
      ensures State() == old(State()).(pos := 0)
    {
      pos := 0;
    }

    /** `read(fd, buf, count)`. */
    method Read(buf: array<byte>, count: nat) returns (n: int)
      requires count <= buf.Length
      modifies this, buf
      ensures n == ReadCount(old(State()), count)
      ensures State() == AfterRead(old(State()), count)
      ensures buf[..] == Fill(old(buf[..]), ReadData(old(State()), count))
    {
      n := ReadCount(State(), count);
      if n > 0 {
        BytesIsSlice(content, pos, n);
        forall j | 0 <= j < n {
          buf[j] := content[pos + j];
        }
        pos := pos + n;
      }
      calls := calls + 1;
    }

    /** `write(fd, buf, count)`. */
    method Write(buf: array<byte>, count: nat) returns (n: int)
      requires count <= buf.Length
      modifies this
      ensures n == WriteCount(old(State()), count)
      ensures State() == AfterWrite(old(State()), buf[..count])
    {
      n := WriteCount(State(), count);
      if n > 0 {
        content := Overwrite(content, pos, buf[..n]);
        pos := pos + n;
      }
      calls := calls + 1;
    }

    /** `lseek(fd, offset, SEEK_SET)`: lands where asked. */
    method Seek(offset: nat) returns (r: int)
      modifies this
      ensures r == offset && State() == old(State()).(pos := offset)
    {
      pos := offset;
      r := offset;
    }
  }
}
