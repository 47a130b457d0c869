/** The registers and words of the HECI interface (src/uefi/heci_core.c:22-98), the record of what a
    host does with them, and the credit discipline that the host code is proved to follow. */
module HeciRegisters {

  type Byte = x: int | 0 <= x < 0x100
  type Word = x: int | 0 <= x < 0x1_0000_0000

  const TWO_32: int := 0x1_0000_0000
  const CB_OVERFLOW: Word := 0xFFFF_FFFF
  const TIMER_STEP: Word := 1000
  const INIT_TIMEOUT: Word := 15_000_000
  const READ_TIMEOUT: Word := 5_000_000
  const SEND_TIMEOUT: Word := 5_000_000

  datatype EfiStatus =
    | Success
    | InvalidParameter
    | Unsupported
    | BufferTooSmall
    | NotReady
    | DeviceError
    | NoResponse
    | Timeout
    | Aborted
    | MediaChanged
    | OutOfResources
    | ProtocolError
    | NotFound

  predicate IsError(s: EfiStatus) {
    s != Success
  }

  /** H_CSR and ME_CSR_HA share this layout. */
  datatype Csr = Csr(
    intEnable: bool, intStatus: bool, intGenerate: bool, ready: bool, reset: bool,
    reserved: Reserved3, readPointer: Byte, writePointer: Byte, depth: Byte)

  datatype Header = Header(
    fwAddress: Byte, hostAddress: Byte, length: Length9, reserved: Reserved6, complete: bool)

  type Reserved3 = x: int | 0 <= x < 8
  type Length9 = x: int | 0 <= x < 512
  type Reserved6 = x: int | 0 <= x < 64

  function PackHeader(h: Header): Word {
    h.fwAddress + 0x100 * h.hostAddress + 0x1_0000 * h.length + 0x200_0000 * h.reserved
    + (if h.complete then 0x8000_0000 else 0)
  }

  function UnpackHeader(w: Word): Header {
    Header(w % 0x100, w / 0x100 % 0x100, w / 0x1_0000 % 512, w / 0x200_0000 % 64, w >= 0x8000_0000)
  }

  lemma SplitLow(low: int, k: int)
    ensures 0 <= low < 0x100 ==> (low + 0x100 * k) / 0x100 == k && (low + 0x100 * k) % 0x100 == low
    ensures 0 <= low < 512 ==> (low + 512 * k) / 512 == k && (low + 512 * k) % 512 == low
    ensures 0 <= low < 64 ==> (low + 64 * k) / 64 == k && (low + 64 * k) % 64 == low
  {}

  lemma NestedQuotients(w: Word)
    ensures w / 0x1_0000 == w / 0x100 / 0x100
    ensures w / 0x200_0000 == w / 0x1_0000 / 512
    ensures w >= 0x8000_0000 <==> w / 0x200_0000 >= 64
  {}

  lemma HeaderRoundTrip(h: Header)
    ensures UnpackHeader(PackHeader(h)) == h
  {
    var k3 := h.reserved as int + 64 * (if h.complete then 1 else 0);
    var k2 := h.length as int + 512 * k3;
    var k1 := h.hostAddress as int + 0x100 * k2;
    assert PackHeader(h) == h.fwAddress as int + 0x100 * k1;
    SplitLow(h.fwAddress, k1);
    SplitLow(h.hostAddress, k2);
    SplitLow(h.length, k3);
    SplitLow(h.reserved, if h.complete then 1 else 0);
    NestedQuotients(PackHeader(h));
  }

  lemma WordRoundTrip(w: Word)
    ensures PackHeader(UnpackHeader(w)) == w
  {
    NestedQuotients(w);
  }

  /** Number of dwords that carry `length` payload bytes. */
  function Dwords(length: nat): nat {
    (length + 3) / 4
  }

  function Min(a: int, b: int): int {
    if a <= b then a else b
  }

  function Max(a: int, b: int): int {
    if a <= b then b else a
  }

  /** A pointer field read back as the INT8 the source casts it to. */
  function Signed8(x: Byte): int {
    if x < 0x80 then x else x - 0x100
  }

  /** UINT32 arithmetic. */
  function Add32(a: Word, b: Word): Word {
    if a + b < TWO_32 then a + b else a + b - TWO_32
  }

  function Sub32(a: Word, b: Word): Word {
    if a >= b then a - b else a - b + TWO_32
  }

  /** The difference of two INT8 values, stored in a UINT8. */
  function Difference8(a: Byte, b: Byte): Byte {
    var d := Signed8(a) - Signed8(b);
    if d < 0 then d + 0x100 else d
  }

  function GetFilledSlots(c: Csr): Word {
    var filled := Difference8(c.writePointer, c.readPointer);
    if filled > c.depth then CB_OVERFLOW else filled
  }

  /** The free space as the sender computes it, in 32-bit unsigned arithmetic. */
  function Room(c: Csr): Word {
    Sub32(c.depth, GetFilledSlots(c))
  }

  /** The 8-bit pointer difference is the true number of filled slots as long as no more than `depth` are filled. */
  lemma FilledSlotsExact(c: Csr, r: nat, w: nat)
    requires r <= w
    requires c.readPointer == r % 0x100 && c.writePointer == w % 0x100
    ensures w - r <= c.depth ==> GetFilledSlots(c) == w - r && Room(c) == c.depth - (w - r)
    ensures c.depth < w - r < 0x100 ==> GetFilledSlots(c) == CB_OVERFLOW && Room(c) == c.depth + 1
  {
    var carry := r / 0x100 - w / 0x100 + (if c.writePointer < c.readPointer then 1 else 0);
    assert Difference8(c.writePointer, c.readPointer) == (w - r) + 0x100 * carry;
  }

  lemma QuotientUnique(x: int, c: int, k: int, r: int)
    requires 0 <= r < c && x == k * c + r
    ensures x / c == k
  {
    var j, rest := x / c, x % c;
    assert x == j * c + rest;
    assert (j - k) * c == r - rest;
    MultipleAtLeast(j - k, c);
  }

  lemma MultipleAtLeast(m: int, c: int)
    requires c > 0
    ensures m >= 1 ==> m * c >= c
    ensures m <= -1 ==> m * c <= -c
  {
    assert m >= 1 ==> (m - 1) * c >= 0;
    assert m <= -1 ==> (-m - 1) * c >= 0;
  }

  // ---------- what the host does to the device ----------

  datatype Event =
    | Probe(ok: bool)          // PCI configuration space: is the BAR usable?
    | ReadHost(csr: Csr)       // H_CSR
    | ReadMe(csr: Csr)         // ME_CSR_HA
    | WriteHost(csr: Csr)
    | WriteData(word: Word)    // H_CB_WW
    | ReadData(word: Word)     // ME_CB_RW
    | Stall                    // one TIMER_STEP

  type Trace = seq<Event>

  function WordsWritten(t: Trace): seq<Word> {
    if t == [] then [] else
      WordsWritten(t[..|t| - 1]) + (match t[|t| - 1] case WriteData(w) => [w] case _ => [])
  }

  function WordsRead(t: Trace): seq<Word> {
    if t == [] then [] else
      WordsRead(t[..|t| - 1]) + (match t[|t| - 1] case ReadData(w) => [w] case _ => [])
  }

  function Stalls(t: Trace): nat {
    if t == [] then 0 else Stalls(t[..|t| - 1]) + (if t[|t| - 1].Stall? then 1 else 0)
  }

  /** How many dwords the last look at each control register entitles the host to move. */
  datatype Credits = Credits(write: nat, read: nat)

  function Spend(n: nat): nat {
    if n == 0 then 0 else n - 1
  }

  function Advance(c: Credits, e: Event): Credits {
    match e
    case ReadHost(csr) => c.(write := Room(csr))
    case ReadMe(csr) => c.(read := GetFilledSlots(csr))
    case WriteHost(csr) => if csr.reset then Credits(0, 0) else c
    case WriteData(_) => c.(write := Spend(c.write))
    case ReadData(_) => c.(read := Spend(c.read))
    case _ => c
  }

  function CreditsAfter(t: Trace): Credits {
    if t == [] then Credits(0, 0) else Advance(CreditsAfter(t[..|t| - 1]), t[|t| - 1])
  }

  predicate Covered(c: Credits, e: Event) {
    (e.WriteData? ==> c.write > 0) && (e.ReadData? ==> c.read > 0)
  }

  /** No dword is moved without a credit for it. */
  predicate Disciplined(t: Trace) {
    t == [] || (Disciplined(t[..|t| - 1]) && Covered(CreditsAfter(t[..|t| - 1]), t[|t| - 1]))
  }

  type DisciplinedTrace = t: Trace | Disciplined(t) witness []
}
