/** Fragmentation and reassembly as functions on packets, and the laws that connect the two
    (src/uefi/heci_core.c:359-383, 492-562, 711-756). */
module HeciPackets {
  import opened HeciRegisters

  datatype Packet = Packet(header: Header, payload: seq<Word>)

  predicate WellFormed(p: Packet) {
    |p.payload| == Dwords(p.header.length)
  }

  function Flatten(ps: seq<Packet>): seq<Word> {
    if ps == [] then [] else [PackHeader(ps[0].header)] + ps[0].payload + Flatten(ps[1..])
  }

  lemma {:induction false} FlattenAppend(ps: seq<Packet>, qs: seq<Packet>)
    ensures Flatten(ps + qs) == Flatten(ps) + Flatten(qs)
  {
    if ps == [] {
      assert ps + qs == qs;
    } else {
      assert (ps + qs)[1..] == ps[1..] + qs;
      FlattenAppend(ps[1..], qs);
    }
  }

  /** The packets of one message: only the last one carries MessageComplete. */
  predicate IsMessage(ps: seq<Packet>) {
    && ps != []
    && (forall i :: 0 <= i < |ps| ==> WellFormed(ps[i]))
    && (forall i :: 0 <= i < |ps| ==> (ps[i].header.complete <==> i == |ps| - 1))
  }

  /** The host address of each packet: the handle that the firmware means it for, or 0 for the bus itself. */
  function Hosts(ps: seq<Packet>): seq<Byte> {
    seq(|ps|, i requires 0 <= i < |ps| => ps[i].header.hostAddress)
  }

  /** A word stream splits into messages in one way: the receiver finds the sender's packet boundaries. */
  lemma {:induction false} PacketsUnique(ps: seq<Packet>, qs: seq<Packet>)
    requires IsMessage(ps) && IsMessage(qs)
    requires Flatten(ps) <= Flatten(qs)
    ensures ps == qs
  {
    var f, g := Flatten(ps), Flatten(qs);
    assert f[0] == PackHeader(ps[0].header) && g[0] == PackHeader(qs[0].header);
    HeaderRoundTrip(ps[0].header);
    HeaderRoundTrip(qs[0].header);
    var n := |ps[0].payload|;
    assert f[1..n + 1] == ps[0].payload && g[1..n + 1] == qs[0].payload;
    assert f[..n + 1] == g[..n + 1];
    assert f[1..n + 1] == f[..n + 1][1..] && g[1..n + 1] == g[..n + 1][1..];
    assert ps[0] == qs[0];
    if |ps| == 1 {
      assert qs[0].header.complete;
    } else {
      assert Flatten(ps[1..]) == f[n + 1..] && Flatten(qs[1..]) == g[n + 1..];
      PacketsUnique(ps[1..], qs[1..]);
    }
  }

  // ---------- bytes and words ----------

  function ByteOf(w: Word, k: nat): Byte
    requires k < 4
  {
    if k == 0 then w % 0x100
    else if k == 1 then w / 0x100 % 0x100
    else if k == 2 then w / 0x1_0000 % 0x100
    else w / 0x100_0000
  }

  /** The little-endian dword stored at `off`. */
  function LoadWord(mem: seq<Byte>, off: nat): Word
    requires off + 4 <= |mem|
  {
    mem[off] as int + 0x100 * mem[off + 1] as int + 0x1_0000 * mem[off + 2] as int + 0x100_0000 * mem[off + 3] as int
  }

  lemma LoadedByte(mem: seq<Byte>, off: nat, k: nat)
    requires off + 4 <= |mem| && k < 4
    ensures ByteOf(LoadWord(mem, off), k) == mem[off + k]
  {
    var w := LoadWord(mem, off);
    assert w / 0x100 == mem[off + 1] as int + 0x100 * mem[off + 2] as int + 0x1_0000 * mem[off + 3] as int;
    assert w / 0x1_0000 == mem[off + 2] as int + 0x100 * mem[off + 3] as int;
    assert w / 0x100_0000 == mem[off + 3];
  }

  /** And back: the four bytes of a dword load as that dword. */
  function WordBytes(w: Word): seq<Byte> {
    [ByteOf(w, 0), ByteOf(w, 1), ByteOf(w, 2), ByteOf(w, 3)]
  }

  lemma BytesLoad(w: Word)
    ensures LoadWord(WordBytes(w), 0) == w
  {
    NestedQuotients(w);
    assert w / 0x100_0000 == w / 0x1_0000 / 0x100;
  }

  /** Where the fields of a header lie in its four bytes: the firmware's address, the host's, nine bits of length, and the
      MessageComplete bit on top. */
  lemma HeaderLayout(h: Header)
    ensures ByteOf(PackHeader(h), 0) == h.fwAddress && ByteOf(PackHeader(h), 1) == h.hostAddress
    ensures ByteOf(PackHeader(h), 2) == h.length % 0x100
    ensures ByteOf(PackHeader(h), 3) == h.length / 0x100 + 2 * h.reserved + (if h.complete then 0x80 else 0)
  {
    var top := h.length as int / 0x100 + 2 * h.reserved as int + (if h.complete then 0x80 else 0);
    var k2 := h.length as int % 0x100 + 0x100 * top;
    var k1 := h.hostAddress as int + 0x100 * k2;
    assert PackHeader(h) == h.fwAddress as int + 0x100 * k1;
    SplitLow(h.fwAddress, k1);
    SplitLow(h.hostAddress, k2);
    SplitLow(h.length as int % 0x100, top);
    NestedQuotients(PackHeader(h));
    assert PackHeader(h) / 0x100_0000 == PackHeader(h) / 0x1_0000 / 0x100;
  }

  function LoadWords(mem: seq<Byte>, off: nat, n: nat): seq<Word>
    requires off + 4 * n <= |mem|
  {
    seq(n, k requires 0 <= k < n => LoadWord(mem, off + 4 * k))
  }

  function PayloadBytes(ws: seq<Word>): (r: seq<Byte>)
    ensures |r| == 4 * |ws|
  {
    seq(4 * |ws|, i requires 0 <= i < 4 * |ws| => ByteOf(ws[i / 4], i % 4))
  }

  lemma LoadedBytes(mem: seq<Byte>, off: nat, n: nat)
    requires off + 4 * n <= |mem|
    ensures PayloadBytes(LoadWords(mem, off, n)) == mem[off..off + 4 * n]
  {
    forall i | 0 <= i < 4 * n
      ensures PayloadBytes(LoadWords(mem, off, n))[i] == mem[off + i]
    {
      LoadedByte(mem, off + 4 * (i / 4), i % 4);
    }
  }

  // ---------- the sender ----------

  /** Payload bytes of a full packet: the ring minus one dword for the header, in the 64-bit unsigned arithmetic of the
      source, where a ring of depth 0 wraps around. */
  function ChunkSize(depth: nat): nat {
    if depth == 0 then 0xFFFF_FFFF_FFFF_FFFC else 4 * (depth - 1)
  }

  /** A ring of one dword has no room for payload, and the send loop makes no progress on it. */
  predicate MakesProgress(depth: nat) {
    depth != 1
  }

  function NumPackets(depth: nat, length: nat): nat
    requires MakesProgress(depth)
  {
    (length + ChunkSize(depth) - 1) / ChunkSize(depth)
  }

  function PadTo4(n: nat): nat {
    4 * Dwords(n)
  }

  /** `mem` is what the loads see from the start of a message on: the message and, if its last dword reaches past it, the
      bytes that happen to follow. */
  predicate Readable(mem: seq<Byte>, off: nat, end: nat) {
    off <= end && PadTo4(end) <= |mem| && (off % 4 == 0 || off == end)
  }

  predicate SendArea(depth: Byte, mem: seq<Byte>, off: nat, end: nat) {
    MakesProgress(depth) && Readable(mem, off, end)
  }

  /** The next packet when the bytes of `mem` from `off` to `end` are still to be sent. */
  function Fragment(depth: Byte, host: Byte, fw: Byte, mem: seq<Byte>, off: nat, end: nat): Packet
    requires Readable(mem, off, end) && off < end
  {
    var n := Min(ChunkSize(depth), end - off);
    LoadsStayReadable(depth, mem, off, end);
    Packet(Header(fw, host, n % 512, 0, end - off <= ChunkSize(depth)), LoadWords(mem, off, Dwords(n % 512)))
  }

  function NextOffset(depth: Byte, off: nat, end: nat): nat
    requires off <= end
  {
    off + Min(ChunkSize(depth), end - off)
  }

  lemma LoadsStayReadable(depth: Byte, mem: seq<Byte>, off: nat, end: nat)
    requires Readable(mem, off, end) && off < end
    ensures off + PadTo4(Min(ChunkSize(depth), end - off) % 512) <= |mem|
  {
    var n := Min(ChunkSize(depth), end - off);
    NineBits(n);
    PadGrows(n % 512, n);
    PadGrows(n, end - off);
    PadAdds(off, end - off);
  }

  /** The packets HeciSend makes of those bytes, for any ring depth. */
  function Fragments(depth: Byte, host: Byte, fw: Byte, mem: seq<Byte>, off: nat, end: nat): seq<Packet>
    requires SendArea(depth, mem, off, end)
    decreases end - off
  {
    if off == end then [] else
      [Fragment(depth, host, fw, mem, off, end)]
      + Fragments(depth, host, fw, mem, NextOffset(depth, off, end), end)
  }

  lemma CountStep(depth: nat, length: nat)
    requires MakesProgress(depth)
    ensures 0 < length <= ChunkSize(depth) ==> NumPackets(depth, length) == 1
    ensures length > ChunkSize(depth) ==> NumPackets(depth, length) == NumPackets(depth, length - ChunkSize(depth)) + 1
  {
    var c := ChunkSize(depth);
    if 0 < length <= c {
      QuotientUnique(length + c - 1, c, 1, length - 1);
    } else if length > c {
      var x := length - 1;
      QuotientUnique(x + c, c, x / c + 1, x % c);
    }
  }

  /** Lengths as the header carries them: nine bits. */
  function TotalLength(ps: seq<Packet>): nat {
    if ps == [] then 0 else ps[0].header.length + TotalLength(ps[1..])
  }

  /** The bytes of a message: each payload cut to its length. */
  function Content(ps: seq<Packet>): seq<Byte>
    requires forall i :: 0 <= i < |ps| ==> WellFormed(ps[i])
  {
    if ps == [] then [] else assert WellFormed(ps[0]); PayloadBytes(ps[0].payload)[..ps[0].header.length] + Content(ps[1..])
  }

  predicate Aligned(ps: seq<Packet>) {
    forall i :: 0 <= i < |ps| - 1 ==> ps[i].header.length % 4 == 0
  }

  lemma SendAreaShrinks(depth: Byte, mem: seq<Byte>, off: nat, end: nat)
    requires SendArea(depth, mem, off, end) && off < end
    ensures off < NextOffset(depth, off, end) <= end
    ensures SendArea(depth, mem, NextOffset(depth, off, end), end)
    ensures off + PadTo4((NextOffset(depth, off, end) - off) % 512) <= |mem|
  {
    LoadsStayReadable(depth, mem, off, end);
  }

  lemma PadGrows(a: nat, b: nat)
    requires a <= b
    ensures PadTo4(a) <= PadTo4(b)
  {}

  lemma MessageCons(p: Packet, rest: seq<Packet>)
    requires WellFormed(p)
    requires if p.header.complete then rest == [] else IsMessage(rest)
    ensures IsMessage([p] + rest)
  {}

  /** One send makes one message of ceil(bytes / chunk) packets, whatever the depth. */
  lemma {:induction false} FragmentsFormMessage(depth: Byte, host: Byte, fw: Byte, mem: seq<Byte>, off: nat, end: nat)
    requires SendArea(depth, mem, off, end) && off < end
    ensures var ps := Fragments(depth, host, fw, mem, off, end);
      && IsMessage(ps)
      && |ps| == NumPackets(depth, end - off)
      && (forall i :: 0 <= i < |ps| ==> ps[i].header.fwAddress == fw && ps[i].header.hostAddress == host)
    decreases end - off
  {
    CountStep(depth, end - off);
    SendAreaShrinks(depth, mem, off, end);
    var p := Fragment(depth, host, fw, mem, off, end);
    var next := NextOffset(depth, off, end);
    if next < end {
      assert end - next == end - off - ChunkSize(depth);
      FragmentsFormMessage(depth, host, fw, mem, next, end);
    }
    MessageCons(p, Fragments(depth, host, fw, mem, next, end));
  }

  lemma NineBits(n: nat)
    ensures n < 512 ==> n % 512 == n
    ensures n >= 512 ==> n % 512 < n
  {}

  /** No packet of such a message has a length that is cut to 9 bits. */
  predicate LengthsFit(depth: nat, length: nat) {
    0 < depth <= 128 || length < 512
  }

  /** A ring that has room at all has room for the packet and its header at once. */
  predicate FitsRing(p: Packet, depth: nat) {
    depth > 0 ==> 1 + |p.payload| <= depth
  }

  /** Where the length fits its field, so do the dwords of the packet fit the ring. */
  lemma ChunkFits(depth: nat, left: nat)
    requires MakesProgress(depth) && LengthsFit(depth, left)
    ensures var n := Min(ChunkSize(depth), left);
      && n % 512 == n && (depth > 0 ==> 1 + Dwords(n) <= depth) && n <= 4 * Dwords(n)
      && (n % 4 == 0 || n == left)
  {
    NineBits(Min(ChunkSize(depth), left));
  }

  lemma FragmentShape(depth: Byte, host: Byte, fw: Byte, mem: seq<Byte>, off: nat, end: nat)
    requires SendArea(depth, mem, off, end) && off < end && LengthsFit(depth, end - off)
    ensures var p, n := Fragment(depth, host, fw, mem, off, end), Min(ChunkSize(depth), end - off);
      p.header.length == n && off + 4 * Dwords(n) <= |mem| && p.payload == LoadWords(mem, off, Dwords(n))
  {
    ChunkFits(depth, end - off);
    LoadsStayReadable(depth, mem, off, end);
  }

  lemma LoadedFront(mem: seq<Byte>, off: nat, n: nat)
    requires off + 4 * Dwords(n) <= |mem| && n <= 4 * Dwords(n)
    ensures PayloadBytes(LoadWords(mem, off, Dwords(n)))[..n] == mem[off..off + n]
  {
    LoadedBytes(mem, off, Dwords(n));
    assert mem[off..off + 4 * Dwords(n)][..n] == mem[off..off + n];
  }

  lemma FragmentFits(depth: Byte, host: Byte, fw: Byte, mem: seq<Byte>, off: nat, end: nat)
    requires SendArea(depth, mem, off, end) && off < end
    requires LengthsFit(depth, end - off)
    ensures var p, n := Fragment(depth, host, fw, mem, off, end), Min(ChunkSize(depth), end - off);
      && WellFormed(p)
      && p.header.length == n
      && FitsRing(p, depth)
      && PayloadBytes(p.payload)[..n] == mem[off..NextOffset(depth, off, end)]
      && (n % 4 == 0 || NextOffset(depth, off, end) == end)
  {
    var n := Min(ChunkSize(depth), end - off);
    ChunkFits(depth, end - off);
    FragmentShape(depth, host, fw, mem, off, end);
    LoadedFront(mem, off, n);
  }

  /** `n` packets for `length` bytes: one less would not hold them, on a ring with room for `room` dwords beside the header. */
  predicate JustEnough(n: int, room: int, length: int) {
    4 * room * (n - 1) < length <= 4 * room * n
  }

  lemma OneMoreEnough(n: int, room: int, length: int)
    requires JustEnough(n, room, length)
    ensures JustEnough(n + 1, room, length + 4 * room)
  {
    assert 4 * room * (n + 1) == 4 * room * n + 4 * room;
    assert 4 * room * n == 4 * room * (n - 1) + 4 * room;
  }

  /** Every packet but the last fills the ring: the dwords of its payload and one for the header. So no message is cut
      into more packets than it needs. Above 128 dwords the length field keeps only nine bits of what was cut off. */
  lemma {:induction false} PacketsFillRing(depth: Byte, host: Byte, fw: Byte, mem: seq<Byte>, off: nat, end: nat)
    requires SendArea(depth, mem, off, end) && off < end && depth >= 2
    ensures var ps := Fragments(depth, host, fw, mem, off, end);
      && JustEnough(|ps|, depth - 1, end - off)
      && (forall i :: 0 <= i < |ps| - 1 ==>
            ps[i].header.length == 4 * (depth - 1) % 512 && (depth <= 128 ==> 1 + |ps[i].payload| == depth))
    decreases end - off
  {
    SendAreaShrinks(depth, mem, off, end);
    var next := NextOffset(depth, off, end);
    if next < end {
      var rest := Fragments(depth, host, fw, mem, next, end);
      PacketsFillRing(depth, host, fw, mem, next, end);
      OneMoreEnough(|rest|, depth - 1, end - next);
      FullPacket(depth, host, fw, mem, off, end);
      assert Fragments(depth, host, fw, mem, off, end)[1..] == rest;
    } else {
      assert Fragments(depth, host, fw, mem, end, end) == [];
    }
  }

  lemma FullPacket(depth: Byte, host: Byte, fw: Byte, mem: seq<Byte>, off: nat, end: nat)
    requires SendArea(depth, mem, off, end) && NextOffset(depth, off, end) < end && depth >= 2
    ensures var p := Fragment(depth, host, fw, mem, off, end);
      p.header.length == 4 * (depth - 1) % 512 && (depth <= 128 ==> 1 + |p.payload| == depth)
    ensures end - NextOffset(depth, off, end) + 4 * (depth - 1) == end - off
  {
    LoadsStayReadable(depth, mem, off, end);
  }

  /** On a ring of depth 0 the 64-bit difference wraps, and a message of any 32-bit length goes out as one packet. */
  lemma DepthZeroSendsOnePacket(host: Byte, fw: Byte, mem: seq<Byte>, length: Word)
    requires SendArea(0, mem, 0, length) && length > 0
    ensures var ps := Fragments(0, host, fw, mem, 0, length);
      |ps| == 1 && ps[0].header == Header(fw, host, length % 512, 0, true)
  {
    SendAreaShrinks(0, mem, 0, length);
    assert Fragments(0, host, fw, mem, length, length) == [];
  }

  lemma JoinSlices(s: seq<Byte>, a: nat, b: nat, c: nat)
    requires a <= b <= c <= |s|
    ensures s[a..b] + s[b..c] == s[a..c]
  {}

  /** `ps` is a sound way to send `bytes` through a ring of this depth. */
  ghost predicate Carries(ps: seq<Packet>, bytes: seq<Byte>, depth: Byte) {
    && (forall i :: 0 <= i < |ps| ==> WellFormed(ps[i]) && FitsRing(ps[i], depth))
    && Aligned(ps)
    && TotalLength(ps) == |bytes|
    && Content(ps) == bytes
  }

  lemma CarriesCons(p: Packet, rest: seq<Packet>, first: seq<Byte>, bytes: seq<Byte>, depth: Byte)
    requires WellFormed(p) && FitsRing(p, depth)
    requires PayloadBytes(p.payload)[..p.header.length] == first
    requires p.header.length % 4 == 0 || rest == []
    requires Carries(rest, bytes, depth)
    ensures Carries([p] + rest, first + bytes, depth)
  {
    assert ([p] + rest)[1..] == rest;
  }

  lemma FragmentThenRest(depth: Byte, host: Byte, fw: Byte, mem: seq<Byte>, off: nat, end: nat, rest: seq<Packet>)
    requires SendArea(depth, mem, off, end) && off < end
    requires LengthsFit(depth, end - off)
    requires Carries(rest, mem[NextOffset(depth, off, end)..end], depth)
    requires NextOffset(depth, off, end) == end ==> rest == []
    ensures Carries([Fragment(depth, host, fw, mem, off, end)] + rest, mem[off..end], depth)
  {
    var p := Fragment(depth, host, fw, mem, off, end);
    var next := NextOffset(depth, off, end);
    FragmentFits(depth, host, fw, mem, off, end);
    CarriesCons(p, rest, mem[off..next], mem[next..end], depth);
    JoinSlices(mem, off, next, end);
  }

  /** What fragmentation promises of the bytes, for every ring depth the 9-bit length can describe. */
  lemma {:induction false} FragmentsCarryMessage(depth: Byte, host: Byte, fw: Byte, mem: seq<Byte>, off: nat, end: nat)
    requires SendArea(depth, mem, off, end)
    requires LengthsFit(depth, end - off)
    ensures Carries(Fragments(depth, host, fw, mem, off, end), mem[off..end], depth)
    decreases end - off
  {
    if off < end {
      FragmentsCarryMessage(depth, host, fw, mem, NextOffset(depth, off, end), end);
      FragmentThenRest(depth, host, fw, mem, off, end, Fragments(depth, host, fw, mem, NextOffset(depth, off, end), end));
    } else {
      assert mem[off..end] == [];
    }
  }

  /** One turn adds the low nine bits of what it sends to the sum of the lengths. */
  lemma LengthsStep(depth: Byte, host: Byte, fw: Byte, mem: seq<Byte>, off: nat, end: nat)
    requires SendArea(depth, mem, off, end) && off < end
    ensures off < NextOffset(depth, off, end) <= end && SendArea(depth, mem, NextOffset(depth, off, end), end)
    ensures TotalLength(Fragments(depth, host, fw, mem, off, end)) ==
            Min(ChunkSize(depth), end - off) % 512 + TotalLength(Fragments(depth, host, fw, mem, NextOffset(depth, off, end), end))
  {
    SendAreaShrinks(depth, mem, off, end);
    var p, rest := Fragment(depth, host, fw, mem, off, end), Fragments(depth, host, fw, mem, NextOffset(depth, off, end), end);
    assert ([p] + rest)[0] == p && ([p] + rest)[1..] == rest;
  }

  lemma {:induction false} LengthsNeverExceed(depth: Byte, host: Byte, fw: Byte, mem: seq<Byte>, off: nat, end: nat)
    requires SendArea(depth, mem, off, end)
    ensures TotalLength(Fragments(depth, host, fw, mem, off, end)) <= end - off
    decreases end - off
  {
    if off == end {
    } else {
      LengthsStep(depth, host, fw, mem, off, end);
      NineBits(Min(ChunkSize(depth), end - off));
      LengthsNeverExceed(depth, host, fw, mem, NextOffset(depth, off, end), end);
    }
  }

  /** Above depth 128 a full packet's length no longer fits, so the lengths on the wire fall short. */
  lemma LengthsFallShort(depth: Byte, host: Byte, fw: Byte, mem: seq<Byte>, off: nat, end: nat)
    requires SendArea(depth, mem, off, end)
    ensures TotalLength(Fragments(depth, host, fw, mem, off, end)) <= end - off
    ensures !LengthsFit(depth, end - off) ==> TotalLength(Fragments(depth, host, fw, mem, off, end)) < end - off
  {
    LengthsNeverExceed(depth, host, fw, mem, off, end);
    if !LengthsFit(depth, end - off) {
      LengthsStep(depth, host, fw, mem, off, end);
      NineBits(Min(ChunkSize(depth), end - off));
      LengthsNeverExceed(depth, host, fw, mem, NextOffset(depth, off, end), end);
    }
  }

  /** On a ring of one dword the next packet is a header without payload and without MessageComplete, and afterwards all
      of the message is still to be sent. */
  lemma DepthOneMakesNoProgress(host: Byte, fw: Byte, mem: seq<Byte>, off: nat, end: nat)
    requires Readable(mem, off, end) && off < end
    ensures Fragment(1, host, fw, mem, off, end) == Packet(Header(fw, host, 0, 0, false), [])
    ensures NextOffset(1, off, end) == off
  {}

  /** How far into memory the loads of the next packet reach, and those of all packets. */
  function OneLoad(depth: Byte, off: nat, end: nat): nat
    requires off <= end
  {
    off + PadTo4(Min(ChunkSize(depth), end - off) % 512)
  }

  function LoadEnd(depth: Byte, off: nat, end: nat): nat
    requires MakesProgress(depth) && off <= end
    decreases end - off
  {
    if off == end then off else Max(OneLoad(depth, off, end), LoadEnd(depth, NextOffset(depth, off, end), end))
  }

  /** The bytes that the last packet of a message has to carry. */
  function LastChunk(depth: Byte, off: nat, end: nat): nat
    requires MakesProgress(depth) && off <= end
    decreases end - off
  {
    if end - off <= ChunkSize(depth) then end - off else LastChunk(depth, NextOffset(depth, off, end), end)
  }

  /** The loads of one packet: they end inside the message unless they are the last and the message does not end on a
      dword, or the length was cut. */
  lemma OneLoadEnds(depth: Byte, off: nat, end: nat)
    requires MakesProgress(depth) && off < end && off % 4 == 0
    ensures var next := NextOffset(depth, off, end);
      && off < next <= end && OneLoad(depth, off, end) <= PadTo4(end)
      && (next < end ==> next % 4 == 0 && OneLoad(depth, off, end) <= end)
      && (next == end ==> (OneLoad(depth, off, end) <= end <==> end % 4 == 0 || end - off >= 512))
  {
    var n := Min(ChunkSize(depth), end - off);
    ChunkAligned(depth);
    PadUnlessCut(n);
    PadAdds(off, n);
    PadGrows(off + n, end);
    SumAligned(off, n);
  }

  lemma ChunkAligned(depth: nat)
    requires MakesProgress(depth)
    ensures ChunkSize(depth) % 4 == 0 && ChunkSize(depth) > 0
  {}

  lemma SumAligned(a: nat, b: nat)
    requires a % 4 == 0
    ensures (a + b) % 4 == 0 <==> b % 4 == 0
  {}

  lemma PadCovers(n: nat)
    ensures n <= PadTo4(n)
  {}

  /** The loads stay inside a message of `end` bytes exactly when it ends on a dword or its last packet has its length cut;
      and they never reach past its last dword. */
  lemma {:induction false} LoadsStayInside(depth: Byte, off: nat, end: nat)
    requires MakesProgress(depth) && off < end && off % 4 == 0
    ensures LoadEnd(depth, off, end) <= PadTo4(end)
    ensures LoadEnd(depth, off, end) <= end <==> end % 4 == 0 || LastChunk(depth, off, end) >= 512
    decreases end - off
  {
    OneLoadEnds(depth, off, end);
    PadCovers(end);
    var next := NextOffset(depth, off, end);
    if next == end {
      assert LoadEnd(depth, end, end) == end;
    } else {
      LoadsStayInside(depth, next, end);
    }
  }

  /** The dwords loaded for `n` bytes, of which the length field keeps `n` modulo 512. */
  lemma PadUnlessCut(n: nat)
    ensures PadTo4(n % 512) <= PadTo4(n)
    ensures PadTo4(n % 512) <= n <==> n % 4 == 0 || n >= 512
  {
    NineBits(n);
  }

  // ---------- the receiver ----------

  /** Copy as many of the bytes as there is space for, starting at `off`. */
  function Deposit(buf: seq<Byte>, off: nat, bytes: seq<Byte>, space: nat): (r: seq<Byte>)
    requires space > 0 ==> off + space <= |buf|
    ensures |r| == |buf|
  {
    var k := Min(|bytes|, space);
    if k == 0 then buf else buf[..off] + bytes[..k] + buf[off + k..]
  }

  datatype Rx = Rx(buf: seq<Byte>, total: Word)

  function Space(total: Word, size: Word): Word {
    if total < size then size - total else 0
  }

  function RxStep(rx: Rx, size: Word, p: Packet): (r: Rx)
    requires size <= |rx.buf|
    ensures |r.buf| == |rx.buf|
  {
    Rx(Deposit(rx.buf, 4 * (rx.total / 4), PayloadBytes(p.payload), Space(rx.total, size)),
       Add32(rx.total, p.header.length))
  }

  /** HeciReceive's loop over the packets it reads; `total` wraps like the source's UINT32. */
  function Reassemble(rx: Rx, size: Word, ps: seq<Packet>): (r: Rx)
    requires size <= |rx.buf|
    ensures |r.buf| == |rx.buf|
    decreases |ps|
  {
    if ps == [] then rx else Reassemble(RxStep(rx, size, ps[0]), size, ps[1..])
  }

  lemma {:induction false} ReassembleAppend(rx: Rx, size: Word, ps: seq<Packet>, p: Packet)
    requires size <= |rx.buf|
    ensures Reassemble(rx, size, ps + [p]) == RxStep(Reassemble(rx, size, ps), size, p)
    decreases |ps|
  {
    if ps == [] {
      assert [p][1..] == [];
    } else {
      assert (ps + [p])[1..] == ps[1..] + [p];
      ReassembleAppend(RxStep(rx, size, ps[0]), size, ps[1..], p);
    }
  }

  /** Whatever the packets are, no byte outside the caller's `size` bytes changes. */
  lemma {:induction false} ReassembleStaysInside(rx: Rx, size: Word, ps: seq<Packet>)
    requires size <= |rx.buf|
    ensures Reassemble(rx, size, ps).buf[size..] == rx.buf[size..]
    decreases |ps|
  {
    if ps == [] {
    } else {
      ReassembleStaysInside(RxStep(rx, size, ps[0]), size, ps[1..]);
      var off, space := 4 * (rx.total / 4), Space(rx.total, size);
      var k := Min(4 * |ps[0].payload|, space);
      if k > 0 {
        assert off + k <= size;
      }
    }
  }

  lemma FloorPlusCeiling(a: nat, b: nat)
    ensures 4 * (a / 4) + PadTo4(b) <= PadTo4(a + b)
  {}

  /** Nor does a byte change past the last dword received. */
  lemma {:induction false} ReassembleStopsAtEnd(rx: Rx, size: Word, ps: seq<Packet>, j: nat)
    requires size <= |rx.buf| && rx.total + TotalLength(ps) < TWO_32
    requires forall i :: 0 <= i < |ps| ==> WellFormed(ps[i])
    requires PadTo4(rx.total + TotalLength(ps)) <= j < |rx.buf|
    ensures Reassemble(rx, size, ps).buf[j] == rx.buf[j]
    decreases |ps|
  {
    if ps == [] {
    } else {
      assert WellFormed(ps[0]);
      EndsBefore(rx.total, ps[0].header.length, TotalLength(ps[1..]), j);
      StepStopsAt(rx, size, ps[0], j);
      ReassembleStopsAtEnd(RxStep(rx, size, ps[0]), size, ps[1..], j);
    }
  }

  lemma EndsBefore(a: nat, b: nat, c: nat, j: nat)
    requires PadTo4(a + (b + c)) <= j
    ensures PadTo4(a + b) <= j && PadTo4((a + b) + c) <= j
  {
    PadGrows(a + b, a + (b + c));
    assert (a + b) + c == a + (b + c);
  }

  lemma StepStopsAt(rx: Rx, size: Word, p: Packet, j: nat)
    requires size <= |rx.buf| && WellFormed(p) && rx.total + p.header.length < TWO_32
    requires PadTo4(rx.total + p.header.length) <= j < |rx.buf|
    ensures RxStep(rx, size, p).buf[j] == rx.buf[j] && RxStep(rx, size, p).total == rx.total + p.header.length
  {
    FloorPlusCeiling(rx.total, p.header.length);
    DepositStopsAt(rx.buf, 4 * (rx.total / 4), PayloadBytes(p.payload), Space(rx.total, size), j);
  }

  lemma DepositStopsAt(buf: seq<Byte>, off: nat, bytes: seq<Byte>, space: nat, j: nat)
    requires space > 0 ==> off + space <= |buf|
    requires off + |bytes| <= j < |buf|
    ensures Deposit(buf, off, bytes, space)[j] == buf[j]
  {}

  /** One copy of the loop: `length` of the bytes belong to the message, the rest pads the last dword. */
  lemma DepositAppends(buf: seq<Byte>, size: nat, bytes: seq<Byte>, length: nat, done: seq<Byte>)
    requires size <= |buf| && length <= |bytes| && (length == 0 ==> bytes == [])
    requires buf[..Min(|done|, size)] == done[..Min(|done|, size)]
    ensures var next, done' := Deposit(buf, |done|, bytes, if |done| < size then size - |done| else 0), done + bytes[..length];
      && next[..Min(|done'|, size)] == done'[..Min(|done'|, size)]
  {
    var k := Min(|bytes|, if |done| < size then size - |done| else 0);
    var done' := done + bytes[..length];
    var m := Min(|done'|, size);
    if k > 0 {
      var next := buf[..|done|] + bytes[..k] + buf[|done| + k..];
      assert buf[..|done|] == done;
      assert |done| <= m <= |done| + k;
      assert next[..m] == done + bytes[..m - |done|];
      assert done'[..m] == done + bytes[..m - |done|];
    } else if size <= |done| {
      assert done'[..m] == done[..m];
    } else {
      assert done' == done;
    }
  }

  lemma PadAdds(a: nat, b: nat)
    requires a % 4 == 0
    ensures 4 * (a / 4) == a
    ensures PadTo4(a + b) == a + PadTo4(b)
    ensures b <= PadTo4(b) && (b == 0 ==> PadTo4(b) == 0)
  {}

  /** The receiver has taken in `done`, and the buffer holds as much of it as fits. */
  ghost predicate Holds(rx: Rx, size: Word, done: seq<Byte>) {
    size <= |rx.buf| && rx.total == |done| && rx.buf[..Min(|done|, size)] == done[..Min(|done|, size)]
  }

  /** One packet of the loop, when everything before it filled whole dwords. */
  lemma StepAppends(rx: Rx, size: Word, p: Packet, done: seq<Byte>)
    requires Holds(rx, size, done) && |done| % 4 == 0 && WellFormed(p)
    requires |done| + p.header.length < TWO_32
    ensures var next, done' := RxStep(rx, size, p), done + PayloadBytes(p.payload)[..p.header.length];
      && Holds(next, size, done')
  {
    PadAdds(|done|, p.header.length);
    DepositAppends(rx.buf, size, PayloadBytes(p.payload), p.header.length, done);
  }

  lemma Associates<T>(a: seq<T>, b: seq<T>, c: seq<T>)
    ensures (a + b) + c == a + (b + c)
  {}

  lemma AlignedTail(ps: seq<Packet>, n: nat)
    requires ps != [] && Aligned(ps) && n % 4 == 0
    ensures Aligned(ps[1..])
    ensures |ps| > 1 ==> (n + ps[0].header.length) % 4 == 0
  {}

  /** `done` is what the packets before `ps` carried. */
  lemma {:induction false} ReassembleFrom(rx: Rx, size: Word, ps: seq<Packet>, done: seq<Byte>)
    requires Holds(rx, size, done)
    requires forall i :: 0 <= i < |ps| ==> WellFormed(ps[i])
    requires Aligned(ps) && (ps != [] ==> |done| % 4 == 0)
    requires |done| + TotalLength(ps) < TWO_32
    ensures var r := Reassemble(rx, size, ps);
      && r.total == |done| + TotalLength(ps)
      && Holds(r, size, done + Content(ps))
    decreases |ps|
  {
    if ps == [] {
      assert done + Content(ps) == done;
    } else {
      var p := ps[0];
      assert WellFormed(p);
      var bytes := PayloadBytes(p.payload)[..p.header.length];
      StepAppends(rx, size, p, done);
      AlignedTail(ps, |done|);
      ReassembleFrom(RxStep(rx, size, p), size, ps[1..], done + bytes);
      Associates(done, bytes, Content(ps[1..]));
    }
  }

  /** Reassembly of any packet stream into a buffer of any size: the reported length is the sum of the packet
      lengths, and the buffer holds as much of the concatenated payloads as fits. */
  lemma ReassemblyCorrect(buf: seq<Byte>, size: Word, ps: seq<Packet>)
    requires size <= |buf|
    requires forall i :: 0 <= i < |ps| ==> WellFormed(ps[i])
    requires Aligned(ps) && TotalLength(ps) < TWO_32
    ensures var r := Reassemble(Rx(buf, 0), size, ps);
      && r.total == TotalLength(ps) == |Content(ps)|
      && r.buf[..Min(r.total, size)] == Content(ps)[..Min(r.total, size)]
  {
    ReassembleFrom(Rx(buf, 0), size, ps, []);
    assert [] + Content(ps) == Content(ps);
  }

  lemma {:induction false} TotalIsSum(rx: Rx, size: Word, ps: seq<Packet>)
    requires size <= |rx.buf|
    ensures Reassemble(rx, size, ps).total == (rx.total + TotalLength(ps)) % TWO_32
    decreases |ps|
  {
    if ps == [] {
    } else {
      var next := RxStep(rx, size, ps[0]);
      TotalIsSum(next, size, ps[1..]);
      assert next.total == Add32(rx.total, ps[0].header.length);
      AddWraps(rx.total, ps[0].header.length, TotalLength(ps[1..]));
    }
  }

  lemma AddWraps(a: Word, b: Word, c: nat)
    ensures (Add32(a, b) + c) % TWO_32 == (a + (b + c)) % TWO_32
  {
    WrapOnce(Add32(a, b), c);
  }

  lemma WrapSmall(a: nat)
    requires a < TWO_32
    ensures (0 + a) % TWO_32 == a
  {}

  lemma WrapOnce(a: nat, b: nat)
    ensures (a + b + TWO_32) % TWO_32 == (a + b) % TWO_32
  {}

  // ---------- sender and receiver together ----------

  ghost predicate Delivered(r: Rx, mem: seq<Byte>, length: nat)
    requires length <= |mem|
  {
    r.total == length && length <= |r.buf| && r.buf[..length] == mem[..length]
  }

  lemma FittingLengthsDeliver(depth: Byte, host: Byte, fw: Byte, mem: seq<Byte>, length: Word, buf: seq<Byte>, size: Word)
    requires SendArea(depth, mem, 0, length)
    requires length <= size <= |buf|
    requires LengthsFit(depth, length)
    ensures Delivered(Reassemble(Rx(buf, 0), size, Fragments(depth, host, fw, mem, 0, length)), mem, length)
  {
    var sent := Fragments(depth, host, fw, mem, 0, length);
    FragmentsCarryMessage(depth, host, fw, mem, 0, length);
    ReassemblyCorrect(buf, size, sent);
    assert Content(sent)[..length] == mem[..length];
  }

  lemma TruncatedLengthsDoNot(depth: Byte, host: Byte, fw: Byte, mem: seq<Byte>, length: Word, buf: seq<Byte>, size: Word)
    requires SendArea(depth, mem, 0, length)
    requires length <= size <= |buf|
    requires !LengthsFit(depth, length)
    ensures !Delivered(Reassemble(Rx(buf, 0), size, Fragments(depth, host, fw, mem, 0, length)), mem, length)
  {
    var sent := Fragments(depth, host, fw, mem, 0, length);
    LengthsFallShort(depth, host, fw, mem, 0, length);
    ShortTotal(buf, size, sent, length);
  }

  lemma ShortTotal(buf: seq<Byte>, size: Word, ps: seq<Packet>, length: Word)
    requires size <= |buf| && TotalLength(ps) < length
    ensures Reassemble(Rx(buf, 0), size, ps).total != length
  {
    TotalIsSum(Rx(buf, 0), size, ps);
    WrapSmall(TotalLength(ps));
  }

  /** The receiver that consumes the words of one send ends with the message, exactly when the length of every
      packet fits its 9 bits: a ring of at most 128 dwords (but not 0), or a message shorter than 512 bytes. */
  lemma LoopbackRoundTrip(depth: Byte, host: Byte, fw: Byte, mem: seq<Byte>, length: Word,
                          buf: seq<Byte>, size: Word, received: seq<Packet>)
    requires SendArea(depth, mem, 0, length) && 0 < length
    requires length <= size <= |buf|
    requires IsMessage(received) && Flatten(received) == Flatten(Fragments(depth, host, fw, mem, 0, length))
    ensures Delivered(Reassemble(Rx(buf, 0), size, received), mem, length) <==> LengthsFit(depth, length)
  {
    FragmentsFormMessage(depth, host, fw, mem, 0, length);
    PacketsUnique(received, Fragments(depth, host, fw, mem, 0, length));
    if LengthsFit(depth, length) {
      FittingLengthsDeliver(depth, host, fw, mem, length, buf, size);
    } else {
      TruncatedLengthsDoNot(depth, host, fw, mem, length, buf, size);
    }
  }
}
