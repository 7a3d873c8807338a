/** The byte layout of one `struct inotify_event` record as the wrapper unpacks it
    (`String#unpack("lLLLZ*")`), and the read that fetches it. Native byte order is
    taken to be little-endian. */
module InotifyCtypes {

  newtype byte = x: int | 0 <= x < 0x100

  /** A C `unsigned int`: the mask, cookie and len fields. */
  newtype u32 = x: int | 0 <= x < 0x1_0000_0000

  /** A C `int`: the watch descriptor field is a signed 32-bit value. */
  newtype i32 = x: int | -0x8000_0000 <= x < 0x8000_0000

  /** The hash `inotify_event` returns: "wd", "mask", "cookie", "len" and "name". */
  datatype Event = Event(wd: i32, mask: u32, cookie: u32, len: u32, name: seq<byte>)

  /** Four 32-bit fields precede the name. */
  const HeaderSize: nat := 16

  /** `inotify_read` reads at most 20 + 1024 + 1 bytes. */
  const ReadBufferSize: nat := 20 + 1024 + 1

  /** The unsigned little-endian value stored at b[at..at + 4] (`L`). */
  function LoadU32(b: seq<byte>, at: nat): (r: u32)
    requires at + 4 <= |b|
    ensures r as int % 0x100 == b[at] as int
    ensures r as int / 0x100_0000 == b[at + 3] as int
  {
    (b[at] as int + 0x100 * b[at + 1] as int + 0x1_0000 * b[at + 2] as int
      + 0x100_0000 * b[at + 3] as int) as u32
  }

  /** The four little-endian bytes of x. */
  function StoreU32(x: u32): (r: seq<byte>)
    ensures |r| == 4
  {
    var n0 := x as int;
    var n1 := n0 / 0x100;
    var n2 := n1 / 0x100;
    [(n0 % 0x100) as byte, (n1 % 0x100) as byte, (n2 % 0x100) as byte, (n2 / 0x100) as byte]
  }

  lemma DivMod256(lo: int, hi: int)
    requires 0 <= lo < 0x100 && 0 <= hi
    ensures (lo + 0x100 * hi) % 0x100 == lo && (lo + 0x100 * hi) / 0x100 == hi
  {
  }

  /** Loading the bytes that StoreU32 produced gives the value back. */
  lemma LoadStoreU32(x: u32, b: seq<byte>, at: nat)
    requires at + 4 <= |b| && b[at..at + 4] == StoreU32(x)
    ensures LoadU32(b, at) == x
  {
    var s := StoreU32(x);
    assert b[at] == s[0] && b[at + 1] == s[1] && b[at + 2] == s[2] && b[at + 3] == s[3];
  }

  /** Storing a loaded value gives the same four bytes back. */
  lemma StoreLoadU32(b: seq<byte>, at: nat)
    requires at + 4 <= |b|
    ensures StoreU32(LoadU32(b, at)) == b[at..at + 4]
  {
    var b0, b1, b2, b3 := b[at] as int, b[at + 1] as int, b[at + 2] as int, b[at + 3] as int;
    var n2 := b2 + 0x100 * b3;
    var n1 := b1 + 0x100 * n2;
    var n0 := b0 + 0x100 * n1;
    assert LoadU32(b, at) as int == n0;
    DivMod256(b0, n1);
    DivMod256(b1, n2);
    DivMod256(b2, b3);
  }

  /** The signed reading (`l`) of a 32-bit field: two's complement. */
  function ToSigned(u: u32): (r: i32)
    ensures (r as int - u as int) % 0x1_0000_0000 == 0
    ensures r < 0 <==> u >= 0x8000_0000
  {
    if u < 0x8000_0000 then u as int as i32 else (u as int - 0x1_0000_0000) as i32
  }

  /** The two's-complement bits of a signed 32-bit value, read as unsigned. */
  function FromSigned(x: i32): u32 {
    if x < 0 then (x as int + 0x1_0000_0000) as u32 else x as int as u32
  }

  /** ToSigned and FromSigned are inverse bijections. */
  lemma SignedRoundTrip(x: i32, u: u32)
    ensures ToSigned(FromSigned(x)) == x
    ensures FromSigned(ToSigned(u)) == u
  {
  }

  /** `Z*`: the bytes up to, not including, the first NUL, or all of them when there is none. */
  function CString(s: seq<byte>): (r: seq<byte>)
    ensures |r| <= |s| && r == s[..|r|]
    ensures 0 !in r
    ensures |r| < |s| ==> s[|r|] == 0
  {
    if s == [] || s[0] == 0 then [] else [s[0]] + CString(s[1..])
  }

  /** A NUL-free string followed by a NUL (or by nothing) reads back as itself. */
  lemma {:induction false} CStringTerminated(name: seq<byte>, tail: seq<byte>)
    requires 0 !in name
    requires tail == [] || tail[0] == 0
    ensures CString(name + tail) == name
  {
    if name != [] {
      assert (name + tail)[1..] == name[1..] + tail;
      CStringTerminated(name[1..], tail);
    }
  }

  /** `inotify_event`: unpack "lLLLZ*". The length of the buffer is never checked and the
      len field plays no part in finding the name. */
  function Decode(buf: seq<byte>): (ev: Event)
    requires |buf| >= HeaderSize
    ensures HeaderSize + |ev.name| <= |buf|
    ensures ev.name == buf[HeaderSize..HeaderSize + |ev.name|]
    ensures 0 !in ev.name
    ensures HeaderSize + |ev.name| == |buf| || buf[HeaderSize + |ev.name|] == 0
  {
    Event(ToSigned(LoadU32(buf, 0)), LoadU32(buf, 4), LoadU32(buf, 8), LoadU32(buf, 12),
          CString(buf[HeaderSize..]))
  }

  /** The record the kernel writes for an event, without any NUL padding after the name. */
  function Encode(ev: Event): (buf: seq<byte>)
    ensures |buf| == HeaderSize + |ev.name|
  {
    StoreU32(FromSigned(ev.wd)) + StoreU32(ev.mask) + StoreU32(ev.cookie) + StoreU32(ev.len) + ev.name
  }

  /** Decoding an encoded record gives back every field, whether the name ends the buffer
      or is followed by a NUL and anything after it (padding, further records). */
  lemma DecodeEncode(ev: Event, tail: seq<byte>)
    requires 0 !in ev.name
    requires tail == [] || tail[0] == 0
    ensures Decode(Encode(ev) + tail) == ev
  {
    var buf := Encode(ev) + tail;
    LoadStoreU32(FromSigned(ev.wd), buf, 0);
    LoadStoreU32(ev.mask, buf, 4);
    LoadStoreU32(ev.cookie, buf, 8);
    LoadStoreU32(ev.len, buf, 12);
    SignedRoundTrip(ev.wd, 0);
    assert buf[HeaderSize..] == ev.name + tail;
    CStringTerminated(ev.name, tail);
  }

  /** Decoding loses only what follows the name: re-encoding the decoded record gives the
      first 16 + |name| bytes of the buffer. */
  lemma EncodeDecode(buf: seq<byte>)
    requires |buf| >= HeaderSize
    ensures HeaderSize + |Decode(buf).name| <= |buf|
    ensures Encode(Decode(buf)) == buf[..HeaderSize + |Decode(buf).name|]
  {
    var ev := Decode(buf);
    StoreLoadU32(buf, 0);
    StoreLoadU32(buf, 4);
    StoreLoadU32(buf, 8);
    StoreLoadU32(buf, 12);
    SignedRoundTrip(0, LoadU32(buf, 0));
    assert buf[..HeaderSize + |ev.name|]
        == buf[0..4] + buf[4..8] + buf[8..12] + buf[12..16] + buf[HeaderSize..][..|ev.name|];
  }

  /** A bare header, or a header followed only by zero bytes, decodes to an empty name. */
  lemma DecodeEmptyName(buf: seq<byte>)
    requires |buf| >= HeaderSize
    requires forall i :: HeaderSize <= i < |buf| ==> buf[i] == 0
    ensures Decode(buf).name == []
  {
    if |buf| > HeaderSize {
      assert buf[HeaderSize..][0] == buf[HeaderSize];
    }
  }

  /** The len field is decoded but never consulted: changing it changes nothing else. */
  lemma DecodeIgnoresLen(buf: seq<byte>, len: u32)
    requires |buf| >= HeaderSize
    ensures var other := buf[..12] + StoreU32(len) + buf[HeaderSize..];
      |other| == |buf| &&
      Decode(other) == Decode(buf).(len := len)
  {
    var other := buf[..12] + StoreU32(len) + buf[HeaderSize..];
    LoadStoreU32(len, other, 12);
    assert other[HeaderSize..] == buf[HeaderSize..];
    assert other[..12] == buf[..12];
  }

  /** Two records delivered by one read, the first for the watched object itself (len 0, no
      name): nothing stops `Z*` at the first record's end, so the name is taken from the
      second record's header, up to its first NUL. */
  lemma EmptyNameReadsNextHeader()
    ensures Decode(Encode(Event(1, 0x400, 0, 0, [])) + Encode(Event(1, 0x8000, 0, 0, []))).name == [1]
  {
    var second := Encode(Event(1, 0x8000, 0, 0, []));
    var buf := Encode(Event(1, 0x400, 0, 0, [])) + second;
    assert buf[HeaderSize..] == second;
    assert second[..2] == [1, 0];
    assert CString(second[1..]) == [];
  }

  /** `inotify_read`: zero a buffer of ReadBufferSize bytes, let read(2) fill its front with
      the `data` the kernel has pending (at most the buffer size), take that many bytes and
      decode them. */
  method InotifyRead(data: seq<byte>) returns (ev: Event)
    requires HeaderSize <= |data| <= ReadBufferSize
    ensures ev == Decode(data)
  {
    var cbuff := new byte[ReadBufferSize];  // malloc: contents unknown
    var index := 0;
    while index < cbuff.Length
      invariant 0 <= index <= cbuff.Length
      invariant forall j :: 0 <= j < index ==> cbuff[j] == 0
    {
      cbuff[index] := 0;
      index := index + 1;
    }
    // read(2): the kernel copies the pending bytes to the front of the buffer
    var len := 0;
    while len < |data|
      invariant 0 <= len <= |data|
      invariant cbuff[..len] == data[..len]
      invariant forall j :: len <= j < cbuff.Length ==> cbuff[j] == 0
    {
      cbuff[len] := data[len];
      len := len + 1;
    }
    // to_s(len)
    assert cbuff[..len] == data;
    ev := Decode(cbuff[..len]);
  }
}
