/** Reading the language-specific data area of a frame: values in any of the encodings, and the
    call-site table. */
module DwarfEh {
  import opened Common
  import opened Leb128

  const WORD := 0x1_0000_0000_0000_0000   // uint64_t and addresses wrap here

  /** The parts of `dwarf_eh_lsda` that the scan uses. */
  datatype Lsda = Lsda(landingPads: nat, callSiteTable: nat, actionTable: nat, callSiteEncoding: nat)

  datatype CallSite = CallSite(start: int, size: int, landingPad: int, action: int)

  /** `dwarf_eh_action`, or how the look-up ended without one.  Fault: the table could not be read. */
  datatype Lookup = Found(landingPad: int, actionRecord: int) | NotFound | Fault

  /** How many values `n` bytes have. */
  function Range(n: nat): nat
    requires n in {2, 4, 8}
  {
    if n == 2 then 0x1_0000 else if n == 4 then 0x1_0000_0000 else WORD
  }

  /** A fixed-width read: sign extension to 64 bits happens in the conversion to uint64_t. */
  function FixedAt(mem: seq<Byte>, p: nat, n: nat, signed: bool): Option<Number>
    requires n in {2, 4, 8}
  {
    if p + n > |mem| then None
    else
      var v, range := LittleEndian(mem[p..p + n]), Range(n);
      Some(Number(if signed && v >= range / 2 then WORD - range + v else v, p + n))
  }

  datatype Format = Fixed(bytes: nat, signed: bool) | Uleb | Sleb | Unsupported

  /** The low four bits of an encoding (`get_encoding`). */
  function FormatOf(encoding: nat): (f: Format)
    ensures f.Fixed? ==> f.bytes in {2, 4, 8}
  {
    match encoding % 16
    case 0 => Fixed(8, true)
    case 1 => Uleb
    case 2 => Fixed(2, false)
    case 3 => Fixed(4, false)
    case 4 => Fixed(8, false)
    case 9 => Sleb
    case 10 => Fixed(2, true)
    case 11 => Fixed(4, true)
    case 12 => Fixed(8, true)
    case _ => Unsupported
  }

  /** `read_value`; encodings that make the original abort have no value. */
  function ValueAt(encoding: nat, mem: seq<Byte>, p: nat): (r: Option<Number>)
    ensures r.Some? ==> p < r.value.next
  {
    match FormatOf(encoding)
    case Fixed(n, signed) => FixedAt(mem, p, n, signed)
    case Uleb => UlebAt(mem, p)
    case Sleb =>
      (match SlebAt(mem, p)
       case None => None
       case Some(x) => Some(Number(x.value % WORD, x.next)))
    case Unsupported => None
  }

  /** One record of the call-site table and where the next one starts. */
  function SiteAt(encoding: nat, mem: seq<Byte>, p: nat): (r: Option<(CallSite, nat)>)
    ensures r.Some? ==> p < r.value.1
  {
    var start := ValueAt(encoding, mem, p);
    if start.None? then None else
    var size := ValueAt(encoding, mem, start.value.next);
    if size.None? then None else
    var pad := ValueAt(encoding, mem, size.value.next);
    if pad.None? then None else
    var action := UlebAt(mem, pad.value.next);
    if action.None? then None else
    Some((CallSite(start.value.value, size.value.value, pad.value.value, action.value.value), action.value.next))
  }

  /** The instruction pointer is a return address, so the start itself does not count and the end does. */
  predicate Covers(s: CallSite, ip: int) {
    s.start < ip <= (s.start + s.size) % WORD
  }

  /** What a matching record directs: null stays null, everything else is relative to its table. */
  function Resolve(l: Lsda, s: CallSite): Lookup {
    Found(if s.landingPad != 0 then (l.landingPads + s.landingPad) % WORD else 0,
          if s.action != 0 then (l.actionTable + s.action - 1) % WORD else 0)
  }

  /** `dwarf_eh_find_callsite` */
  method FindCallSite(mem: seq<Byte>, l: Lsda, ip: int) returns (r: Lookup)
    ensures r == Scan(mem, l, ip, l.callSiteTable)
  {
    var p := l.callSiteTable;
    while p <= l.actionTable
      invariant Scan(mem, l, ip, l.callSiteTable) == Scan(mem, l, ip, p)
      decreases l.actionTable + 1 - p
    {
      var start := ValueAt(l.callSiteEncoding, mem, p);
      if start.None? {
        return Fault;
      }
      var size := ValueAt(l.callSiteEncoding, mem, start.value.next);
      if size.None? {
        return Fault;
      }
      if start.value.value > ip {
        return NotFound;
      }
      var pad := ValueAt(l.callSiteEncoding, mem, size.value.next);
      if pad.None? {
        return Fault;
      }
      var action := UlebAt(mem, pad.value.next);
      if action.None? {
        return Fault;
      }
      p := action.value.next;
      var site := CallSite(start.value.value, size.value.value, pad.value.value, action.value.value);
      if Covers(site, ip) {
        return Resolve(l, site);
      }
    }
    r := NotFound;
  }

  /** The specification of the scan. */
  function Scan(mem: seq<Byte>, l: Lsda, ip: int, p: nat): Lookup
    decreases l.actionTable + 1 - p
  {
    if p > l.actionTable then NotFound else
    var start := ValueAt(l.callSiteEncoding, mem, p);
    if start.None? || ValueAt(l.callSiteEncoding, mem, start.value.next).None? then Fault
    else if start.value.value > ip then NotFound
    else
      match SiteAt(l.callSiteEncoding, mem, p)
      case None => Fault
      case Some((site, next)) => if Covers(site, ip) then Resolve(l, site) else Scan(mem, l, ip, next)
  }

  type SiteReader = nat -> Option<(CallSite, nat)>

  function Reader(encoding: nat, mem: seq<Byte>): SiteReader {
    p => SiteAt(encoding, mem, p)
  }

  /** Reading on from `p` yields exactly the records `sites` and then stands at `end`. */
  predicate TableAt(read: SiteReader, p: nat, sites: seq<CallSite>, end: nat)
    decreases |sites|
  {
    if sites == [] then p == end
    else
      match read(p)
      case None => false
      case Some((site, next)) => site == sites[0] && TableAt(read, next, sites[1..], end)
  }

  predicate SortedByStart(sites: seq<CallSite>) {
    forall i, j :: 0 <= i < j < |sites| ==> sites[i].start <= sites[j].start
  }

  lemma {:induction false} TableEnds(encoding: nat, mem: seq<Byte>, p: nat, sites: seq<CallSite>, end: nat)
    requires TableAt(Reader(encoding, mem), p, sites, end)
    ensures p <= end && (sites != [] ==> p < end)
    decreases |sites|
  {
    if sites != [] {
      TableEnds(encoding, mem, SiteAt(encoding, mem, p).value.1, sites[1..], end);
    }
  }

  /** In a sorted table the early exit loses nothing: the first record that covers the instruction
      pointer, the only one if the records are disjoint, decides. */
  lemma {:induction false} ScanDirects(mem: seq<Byte>, l: Lsda, ip: int, p: nat, sites: seq<CallSite>, k: nat)
    requires TableAt(Reader(l.callSiteEncoding, mem), p, sites, l.actionTable) && SortedByStart(sites)
    requires k < |sites| && Covers(sites[k], ip) && forall i :: 0 <= i < k ==> !Covers(sites[i], ip)
    ensures Scan(mem, l, ip, p) == Resolve(l, sites[k])
    decreases |sites|
  {
    TableEnds(l.callSiteEncoding, mem, p, sites, l.actionTable);
    if k > 0 {
      assert sites[0].start <= sites[k].start;
      assert sites[1..][k - 1] == sites[k];
      ScanDirects(mem, l, ip, SiteAt(l.callSiteEncoding, mem, p).value.1, sites[1..], k - 1);
    }
  }

  /** What it finds then: a landing pad is an offset from that of the region, an action an offset from the action
      table, counted from 1; 0 stands for none in both. */
  lemma {:induction false} ScanFindsCoveringSite(mem: seq<Byte>, l: Lsda, ip: int, p: nat, sites: seq<CallSite>, k: nat)
    requires TableAt(Reader(l.callSiteEncoding, mem), p, sites, l.actionTable) && SortedByStart(sites)
    requires k < |sites| && sites[k].start < ip <= (sites[k].start + sites[k].size) % WORD
    requires forall i | 0 <= i < k :: !(sites[i].start < ip <= (sites[i].start + sites[i].size) % WORD)
    ensures var s := sites[k];
      Scan(mem, l, ip, p) == Found(if s.landingPad == 0 then 0 else (l.landingPads + s.landingPad) % WORD,
                                   if s.action == 0 then 0 else (l.actionTable + s.action - 1) % WORD)
  {
    ScanDirects(mem, l, ip, p, sites, k);
  }

  /** A gap before some later record is recognised as such. */
  lemma {:induction false} ScanFindsGap(mem: seq<Byte>, l: Lsda, ip: int, p: nat, sites: seq<CallSite>, k: nat)
    requires TableAt(Reader(l.callSiteEncoding, mem), p, sites, l.actionTable)
    requires k < |sites| && sites[k].start > ip && forall i :: 0 <= i < k ==> !Covers(sites[i], ip)
    ensures Scan(mem, l, ip, p) == NotFound
    decreases |sites|
  {
    TableEnds(l.callSiteEncoding, mem, p, sites, l.actionTable);
    if k > 0 && sites[0].start <= ip {
      ScanFindsGap(mem, l, ip, SiteAt(l.callSiteEncoding, mem, p).value.1, sites[1..], k - 1);
    }
  }

  /** The bytes at the action table do not look like a record for `ip`: as far as the scan decodes them they
      start behind it, or are a record that does not cover it. */
  predicate NoPhantom(mem: seq<Byte>, l: Lsda, ip: int) {
    var start := ValueAt(l.callSiteEncoding, mem, l.actionTable);
    && start.Some? && ValueAt(l.callSiteEncoding, mem, start.value.next).Some?
    && (start.value.value > ip
        || var record := SiteAt(l.callSiteEncoding, mem, l.actionTable); record.Some? && !Covers(record.value.0, ip))
  }

  /** When the table is exhausted, the scan looks at one record more, which starts at the action table.  So a
      missing record is reported as missing exactly if those bytes do not look like one. */
  lemma {:induction false} ScanRunsIntoActionTable(mem: seq<Byte>, l: Lsda, ip: int, p: nat, sites: seq<CallSite>)
    requires TableAt(Reader(l.callSiteEncoding, mem), p, sites, l.actionTable)
    requires forall s | s in sites :: s.start <= ip && !Covers(s, ip)
    ensures Scan(mem, l, ip, p) == Scan(mem, l, ip, l.actionTable)
    ensures Scan(mem, l, ip, p) == NotFound <==> NoPhantom(mem, l, ip)
    decreases |sites|
  {
    TableEnds(l.callSiteEncoding, mem, p, sites, l.actionTable);
    if sites == [] {
      ScanOfActionTable(mem, l, ip);
    } else {
      ScanRunsIntoActionTable(mem, l, ip, SiteAt(l.callSiteEncoding, mem, p).value.1, sites[1..]);
    }
  }

  lemma ScanOfActionTable(mem: seq<Byte>, l: Lsda, ip: int)
    ensures Scan(mem, l, ip, l.actionTable) == NotFound <==> NoPhantom(mem, l, ip)
  {
    var record := SiteAt(l.callSiteEncoding, mem, l.actionTable);
    if record.Some? {
      assert Scan(mem, l, ip, record.value.1) == NotFound;
    }
  }

  /** The original can therefore find a record in an empty table: here for the offset 5. */
  lemma PhantomCallSite()
    ensures var l := Lsda(100, 0, 0, 1);
            && TableAt(Reader(1, [0, 10, 7, 0]), l.callSiteTable, [], l.actionTable)
            && Scan([0, 10, 7, 0], l, 5, l.callSiteTable) == Found(107, 0)
  {
    var mem: seq<Byte>, l := [0, 10, 7, 0], Lsda(100, 0, 0, 1);
    forall i | 0 <= i < 4 ensures UlebAt(mem, i) == Some(Number(mem[i], i + 1)) {
      assert RawAt(mem, i, MAX_BYTES) == Some(Raw(7, mem[i], i + 1));
    }
    assert SiteAt(1, mem, 0) == Some((CallSite(0, 10, 7, 0), 4));
  }

  // ----- Tables as compilers emit them

  function Power256(n: nat): (p: nat)
    ensures p > 0
  {
    if n == 0 then 1 else 256 * Power256(n - 1)
  }

  /** The low `n` bytes of a two's complement number, lowest first. */
  function Digits(v: int, n: nat): (bs: seq<Byte>)
    ensures |bs| == n
    decreases n
  {
    if n == 0 then [] else [v % 256] + Digits(v / 256, n - 1)
  }

  lemma LowestByte(v: int, h: int)
    requires h > 0
    ensures v % 256 + 256 * ((v / 256) % h) == v % (256 * h)
  {
    var q, r := v / 256, v % 256;
    var a, b := q / h, q % h;
    assert v == 256 * h * a + (256 * b + r) && 0 <= 256 * b + r < 256 * h;
    Remainder(v, 256 * h, a, 256 * b + r);
  }

  lemma Remainder(v: int, m: int, a: int, r: int)
    requires m > 0 && v == m * a + r && 0 <= r < m
    ensures v % m == r
  {
    var q := v / m;
    assert m * (q - a) == r - v % m;
    if q > a {
      Multiple(m, q - a);
      assert false;
    } else if q < a {
      Multiple(m, a - q);
      assert false;
    }
  }

  lemma Multiple(m: int, d: int)
    requires m > 0 && d > 0
    ensures m * d >= m
  {
  }

  lemma {:induction false} DigitsAreTheNumber(v: int, n: nat)
    ensures LittleEndian(Digits(v, n)) == v % Power256(n)
    decreases n
  {
    if n > 0 {
      DigitsAreTheNumber(v / 256, n - 1);
      LowestByte(v, Power256(n - 1));
    }
  }

  lemma {:induction false} StoredIsSlice(mem: seq<Byte>, p: nat, bs: seq<Byte>)
    requires Stored(mem, p, bs) && p <= |mem|
    ensures p + |bs| <= |mem| && mem[p..p + |bs|] == bs
    decreases |bs|
  {
    if bs != [] {
      StoredIsSlice(mem, p + 1, bs[1..]);
      assert mem[p..p + |bs|] == [mem[p]] + mem[p + 1..p + |bs|];
    }
  }

  lemma Powers()
    ensures Power256(2) == 0x1_0000 && Power256(4) == 0x1_0000_0000 && Power256(8) == WORD
  {
    assert Power256(4) == 256 * Power256(3) == 256 * 256 * Power256(2);
    assert Power256(8) == 256 * Power256(7) == 256 * 256 * Power256(6);
    assert Power256(6) == 256 * Power256(5) == 256 * 256 * Power256(4);
  }

  lemma {:induction false} FixedRoundTrip(mem: seq<Byte>, p: nat, n: nat, signed: bool, v: int)
    requires n in {2, 4, 8} && Stored(mem, p, Digits(v, n))
    requires if signed then -(Range(n) as int) / 2 <= v < Range(n) / 2 else 0 <= v < Range(n)
    ensures FixedAt(mem, p, n, signed) == Some(Number(v % WORD, p + n))
  {
    StoredFits(mem, p, Digits(v, n));
    StoredIsSlice(mem, p, Digits(v, n));
    DigitsAreTheNumber(v, n);
    Powers();
    SignExtension(v, Range(n), signed);
  }

  lemma StoredFits(mem: seq<Byte>, p: nat, bs: seq<Byte>)
    requires Stored(mem, p, bs) && bs != []
    ensures p <= |mem|
  {
  }

  lemma SignExtension(v: int, range: int, signed: bool)
    requires range in {0x1_0000, 0x1_0000_0000, WORD}
    requires if signed then -range / 2 <= v < range / 2 else 0 <= v < range
    ensures (if signed && v % range >= range / 2 then WORD - range + v % range else v % range) == v % WORD
  {
    if v < 0 {
      assert v % range == v + range && v % WORD == v + WORD;
    } else {
      assert v % range == v && v % WORD == v;
    }
  }

  /** The numbers that the low four bits of an encoding provide for (`dwarf_data_encoding`), of LEB128 numbers those
      that can be read back. */
  predicate Representable(encoding: nat, v: int) {
    match encoding % 16
    case 1 => 0 <= v < 0x8000_0000
    case 2 => 0 <= v < 0x1_0000
    case 3 => 0 <= v < 0x1_0000_0000
    case 4 => 0 <= v < WORD
    case 9 => -0x800_0000 <= v < 0x8000_0000
    case 10 => -0x8000 <= v < 0x8000
    case 11 => -0x8000_0000 <= v < 0x8000_0000
    case 0 => -WORD / 2 <= v < WORD / 2
    case 12 => -WORD / 2 <= v < WORD / 2
    case _ => false
  }

  /** The bytes of a number in an encoding; none if it has no place there. */
  function EncodeValue(encoding: nat, v: int): seq<Byte> {
    if !Representable(encoding, v) then []
    else
      match encoding % 16
      case 1 => EncodeU(v)
      case 9 => EncodeS(v)
      case 2 => Digits(v, 2)
      case 10 => Digits(v, 2)
      case 3 => Digits(v, 4)
      case 11 => Digits(v, 4)
      case _ => Digits(v, 8)
  }

  /** In every encoding a number is read back, sign-extended to 64 bits, and exactly its bytes are consumed. */
  lemma {:induction false} ValueRoundTrip(encoding: nat, mem: seq<Byte>, p: nat, v: int)
    requires Representable(encoding, v) && Stored(mem, p, EncodeValue(encoding, v))
    ensures ValueAt(encoding, mem, p) == Some(Number(v % WORD, p + |EncodeValue(encoding, v)|))
  {
    match encoding % 16
    case 1 => UlebRoundTrip(mem, p, v);
    case 9 => SlebRoundTrip(mem, p, v);
    case 2 => FixedRoundTrip(mem, p, 2, false, v);
    case 10 => FixedRoundTrip(mem, p, 2, true, v);
    case 3 => FixedRoundTrip(mem, p, 4, false, v);
    case 11 => FixedRoundTrip(mem, p, 4, true, v);
    case 4 => FixedRoundTrip(mem, p, 8, false, v);
    case _ => FixedRoundTrip(mem, p, 8, true, v);
  }

  type Writer = int -> seq<Byte>

  /** The encoding of the action field is unsigned LEB128, whatever that of the other fields. */
  const ULEB := 1

  function WriterOf(encoding: nat): Writer {
    v => EncodeValue(encoding, v)
  }

  function EncodeSite(write: Writer, writeAction: Writer, s: CallSite): seq<Byte> {
    write(s.start) + (write(s.size) + (write(s.landingPad) + writeAction(s.action)))
  }

  function EncodeTable(write: Writer, writeAction: Writer, sites: seq<CallSite>): seq<Byte> {
    if sites == [] then []
    else EncodeSite(write, writeAction, sites[0]) + EncodeTable(write, writeAction, sites[1..])
  }

  type NumberReader = nat -> Option<Number>

  function ValueReader(encoding: nat, mem: seq<Byte>): NumberReader {
    (p: nat) => ValueAt(encoding, mem, p)
  }

  /** Wherever `bs` is stored, the number `n` is read there. */
  ghost predicate Encodes(read: NumberReader, mem: seq<Byte>, bs: seq<Byte>, n: int) {
    forall p: nat :: Stored(mem, p, bs) ==> read(p) == Some(Number(n, p + |bs|))
  }

  lemma {:induction false} EncodeValueEncodes(encoding: nat, mem: seq<Byte>, n: int)
    requires Representable(encoding, n) && n >= 0
    ensures Encodes(ValueReader(encoding, mem), mem, WriterOf(encoding)(n), n)
  {
    assert n % WORD == n;
    forall p: nat | Stored(mem, p, EncodeValue(encoding, n))
      ensures ValueAt(encoding, mem, p) == Some(Number(n, p + |EncodeValue(encoding, n)|))
    {
      ValueRoundTrip(encoding, mem, p, n);
    }
  }

  lemma {:induction false} FieldStored(read: NumberReader, mem: seq<Byte>, p: nat, n: int,
                                       bs: seq<Byte>, rest: seq<Byte>)
    requires Encodes(read, mem, bs, n) && Stored(mem, p, bs + rest)
    ensures read(p) == Some(Number(n, p + |bs|))
    ensures Stored(mem, p + |bs|, rest)
  {
    StoredParts(mem, p, bs, rest);
  }

  lemma {:induction false} FourNumbers(read: NumberReader, readAction: NumberReader, mem: seq<Byte>, p: nat,
                                       s: CallSite, a: seq<Byte>, b: seq<Byte>, c: seq<Byte>, d: seq<Byte>)
    requires Encodes(read, mem, a, s.start) && Encodes(read, mem, b, s.size) && Encodes(read, mem, c, s.landingPad)
    requires Encodes(readAction, mem, d, s.action)
    requires Stored(mem, p, a + (b + (c + d)))
    ensures read(p) == Some(Number(s.start, p + |a|))
    ensures read(p + |a|) == Some(Number(s.size, p + |a| + |b|))
    ensures read(p + |a| + |b|) == Some(Number(s.landingPad, p + |a| + |b| + |c|))
    ensures readAction(p + |a| + |b| + |c|) == Some(Number(s.action, p + |a| + |b| + |c| + |d|))
  {
    FieldStored(read, mem, p, s.start, a, b + (c + d));
    FieldStored(read, mem, p + |a|, s.size, b, c + d);
    FieldStored(read, mem, p + |a| + |b|, s.landingPad, c, d);
  }

  /** The four fields of a record, read one after the other. */
  function RecordReader(read: NumberReader, readAction: NumberReader): SiteReader {
    (p: nat) => RecordAt(read, readAction, p)
  }

  function RecordAt(read: NumberReader, readAction: NumberReader, p: nat): Option<(CallSite, nat)> {
    var start := read(p);
    if start.None? then None else
    var size := read(start.value.next);
    if size.None? then None else
    var pad := read(size.value.next);
    if pad.None? then None else
    var action := readAction(pad.value.next);
    if action.None? then None else
    Some((CallSite(start.value.value, size.value.value, pad.value.value, action.value.value), action.value.next))
  }

  /** What is written of the fields of a record is read back. */
  ghost predicate FieldsEncoded(read: NumberReader, readAction: NumberReader, mem: seq<Byte>, s: CallSite,
                                write: Writer, writeAction: Writer) {
    && Encodes(read, mem, write(s.start), s.start) && Encodes(read, mem, write(s.size), s.size)
    && Encodes(read, mem, write(s.landingPad), s.landingPad)
    && Encodes(readAction, mem, writeAction(s.action), s.action)
  }

  ghost predicate ReadsEncodedSite(read: SiteReader, mem: seq<Byte>, s: CallSite, bs: seq<Byte>) {
    forall p: nat :: Stored(mem, p, bs) ==> read(p) == Some((s, p + |bs|))
  }

  lemma {:induction false} RecordRoundTrip(read: NumberReader, readAction: NumberReader, mem: seq<Byte>, s: CallSite,
                                           write: Writer, writeAction: Writer)
    requires FieldsEncoded(read, readAction, mem, s, write, writeAction)
    ensures ReadsEncodedSite(RecordReader(read, readAction), mem, s, EncodeSite(write, writeAction, s))
  {
    var a, b, c, d := write(s.start), write(s.size), write(s.landingPad), writeAction(s.action);
    forall p: nat | Stored(mem, p, a + (b + (c + d)))
      ensures RecordAt(read, readAction, p) == Some((s, p + |a| + |b| + |c| + |d|))
    {
      FourNumbers(read, readAction, mem, p, s, a, b, c, d);
    }
  }

  lemma {:induction false} ReaderIsRecordReader(encoding: nat, mem: seq<Byte>, s: CallSite, bs: seq<Byte>)
    requires ReadsEncodedSite(RecordReader(ValueReader(encoding, mem), ValueReader(ULEB, mem)), mem, s, bs)
    ensures ReadsEncodedSite(Reader(encoding, mem), mem, s, bs)
  {
    forall p: nat | Stored(mem, p, bs) ensures Reader(encoding, mem)(p) == Some((s, p + |bs|)) {
      assert RecordReader(ValueReader(encoding, mem), ValueReader(ULEB, mem))(p) == Some((s, p + |bs|));
    }
  }

  /** A written record is read back, wherever it lies. */
  lemma {:induction false} SiteRoundTrip(encoding: nat, mem: seq<Byte>, s: CallSite, write: Writer, writeAction: Writer)
    requires FieldsEncoded(ValueReader(encoding, mem), ValueReader(ULEB, mem), mem, s, write, writeAction)
    ensures ReadsEncodedSite(Reader(encoding, mem), mem, s, EncodeSite(write, writeAction, s))
  {
    RecordRoundTrip(ValueReader(encoding, mem), ValueReader(ULEB, mem), mem, s, write, writeAction);
    ReaderIsRecordReader(encoding, mem, s, EncodeSite(write, writeAction, s));
  }

  lemma {:induction false} SitesRoundTrip(read: SiteReader, mem: seq<Byte>, p: nat, sites: seq<CallSite>,
                                          write: Writer, writeAction: Writer)
    requires forall s | s in sites :: ReadsEncodedSite(read, mem, s, EncodeSite(write, writeAction, s))
    requires Stored(mem, p, EncodeTable(write, writeAction, sites))
    ensures TableAt(read, p, sites, p + |EncodeTable(write, writeAction, sites)|)
    decreases |sites|
  {
    if sites != [] {
      var bs := EncodeSite(write, writeAction, sites[0]);
      assert sites[0] in sites;
      StoredParts(mem, p, bs, EncodeTable(write, writeAction, sites[1..]));
      SitesRoundTrip(read, mem, p + |bs|, sites[1..], write, writeAction);
    }
  }

  /** So is a whole table, record by record. */
  lemma {:induction false} TableRoundTrip(encoding: nat, mem: seq<Byte>, p: nat, sites: seq<CallSite>,
                                          write: Writer, writeAction: Writer)
    requires forall s | s in sites ::
      FieldsEncoded(ValueReader(encoding, mem), ValueReader(ULEB, mem), mem, s, write, writeAction)
    requires Stored(mem, p, EncodeTable(write, writeAction, sites))
    ensures TableAt(Reader(encoding, mem), p, sites, p + |EncodeTable(write, writeAction, sites)|)
  {
    forall s | s in sites
      ensures ReadsEncodedSite(Reader(encoding, mem), mem, s, EncodeSite(write, writeAction, s))
    {
      SiteRoundTrip(encoding, mem, s, write, writeAction);
    }
    SitesRoundTrip(Reader(encoding, mem), mem, p, sites, write, writeAction);
  }

  /** The fields of a record have a place in the encodings. */
  predicate Encodable(encoding: nat, s: CallSite) {
    && s.start >= 0 && s.size >= 0 && s.landingPad >= 0 && s.action >= 0
    && Representable(encoding, s.start) && Representable(encoding, s.size) && Representable(encoding, s.landingPad)
    && Representable(ULEB, s.action)
  }

  lemma {:induction false} EncodableFields(encoding: nat, mem: seq<Byte>, s: CallSite)
    requires Encodable(encoding, s)
    ensures FieldsEncoded(ValueReader(encoding, mem), ValueReader(ULEB, mem), mem, s,
                          WriterOf(encoding), WriterOf(ULEB))
  {
    EncodeValueEncodes(encoding, mem, s.start);
    EncodeValueEncodes(encoding, mem, s.size);
    EncodeValueEncodes(encoding, mem, s.landingPad);
    EncodeValueEncodes(ULEB, mem, s.action);
  }

  lemma {:induction false} WrittenTableIsSearched(mem: seq<Byte>, l: Lsda, ip: int, sites: seq<CallSite>, k: nat,
                                                  write: Writer, writeAction: Writer)
    requires forall s | s in sites :: FieldsEncoded(
      ValueReader(l.callSiteEncoding, mem), ValueReader(ULEB, mem), mem, s, write, writeAction)
    requires Stored(mem, l.callSiteTable, EncodeTable(write, writeAction, sites)) && SortedByStart(sites)
    requires l.actionTable == l.callSiteTable + |EncodeTable(write, writeAction, sites)|
    requires k < |sites| && Covers(sites[k], ip) && forall i :: 0 <= i < k ==> !Covers(sites[i], ip)
    ensures Scan(mem, l, ip, l.callSiteTable) == Resolve(l, sites[k])
  {
    TableRoundTrip(l.callSiteEncoding, mem, l.callSiteTable, sites, write, writeAction);
    ScanDirects(mem, l, ip, l.callSiteTable, sites, k);
  }

  /** From emitted bytes, in any encoding, to the answer: the landing pad and the action of the record of the call
      that is unwinding. */
  lemma {:induction false} EmittedTableIsSearched(mem: seq<Byte>, l: Lsda, ip: int, sites: seq<CallSite>, k: nat)
    requires (forall s | s in sites :: Encodable(l.callSiteEncoding, s)) && SortedByStart(sites)
    requires Stored(mem, l.callSiteTable, EncodeTable(WriterOf(l.callSiteEncoding), WriterOf(ULEB), sites))
    requires l.actionTable == l.callSiteTable + |EncodeTable(WriterOf(l.callSiteEncoding), WriterOf(ULEB), sites)|
    requires k < |sites| && sites[k].start < ip <= (sites[k].start + sites[k].size) % WORD
    requires forall i | 0 <= i < k :: !(sites[i].start < ip <= (sites[i].start + sites[i].size) % WORD)
    ensures var s := sites[k];
      Scan(mem, l, ip, l.callSiteTable) ==
      Found(if s.landingPad == 0 then 0 else (l.landingPads + s.landingPad) % WORD,
            if s.action == 0 then 0 else (l.actionTable + s.action - 1) % WORD)
  {
    forall s | s in sites
      ensures FieldsEncoded(ValueReader(l.callSiteEncoding, mem), ValueReader(ULEB, mem), mem, s,
                            WriterOf(l.callSiteEncoding), WriterOf(ULEB))
    {
      EncodableFields(l.callSiteEncoding, mem, s);
    }
    WrittenTableIsSearched(mem, l, ip, sites, k, WriterOf(l.callSiteEncoding), WriterOf(ULEB));
  }
}
