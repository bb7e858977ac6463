/** The DNS message decoder of dns.py: the wire format of RFC 1035 (header,
    section 4.1.1; questions, 4.1.2; resource records, 4.1.3; compression
    pointers, 4.1.4) for the record types A, NS, PTR and AAAA (RFC 3596,
    section 2.1) and the class IN.

    The decoding rules are stated as functions over the whole datagram and a
    byte offset (NameAt, QueryAt, AnswerAt, PackageOf); the class
    ParsingSession threads a mutable offset through loops as the source does
    and is proved to compute exactly those functions. */
module Dns {
  import opened Common
  import Text

  // ---------------------------------------------------------------- types

  /** The supported record types; nothing outside this set is ever decoded. */
  datatype RecordType = A | NS | PTR | AAAA

  /** The wire code of each supported type. */
  function TypeCode(t: RecordType): (code: nat)
    ensures code in {1, 2, 12, 28}
  {
    match t
    case A => 1
    case NS => 2
    case PTR => 12
    case AAAA => 28
  }

  /** Membership in the supported set: the inverse of TypeCode. */
  function TypeOf(code: int): (t: Option<RecordType>)
    ensures t.Some? <==> code in {1, 2, 12, 28}
    ensures t.Some? ==> TypeCode(t.value) == code
  {
    if code == 1 then Some(A)
    else if code == 2 then Some(NS)
    else if code == 12 then Some(PTR)
    else if code == 28 then Some(AAAA)
    else None
  }

  /** The only supported class. */
  const CLASS_IN: nat := 1

  datatype Query = Query(rtype: RecordType, name: string)

  /** Record data: the raw rdata octets for A and AAAA, a decoded name for NS and PTR. */
  datatype Data = Raw(bytes: seq<byte>) | DomainName(name: string)

  datatype Answer = Answer(rtype: RecordType, name: string, ttl: nat, data: Data)

  /** The flag fields of the header, each kept as the 16-bit value the
      source's mask-and-shift produces. */
  datatype Flags = Flags(
    isResponse: bv16, opcode: bv16, authoritative: bv16, truncated: bv16,
    recursionDesired: bv16, recursionAvailable: bv16, z: bv16,
    answerAuthenticated: bv16, nonAuth: bv16, replyCode: bv16)

  /** A decoded message. As in the source, the transaction id is read from the
      header but not kept. */
  datatype Package = Package(
    flags: Flags, queries: seq<Query>, answers: seq<Answer>,
    authorities: seq<Answer>, additional: seq<Answer>)

  /** Why decoding stopped. ShortBuffer stands for the struct.error and
      IndexError the source lets escape when the datagram ends early; the other
      three are its ParserError cases (BadPointer being the added pointer guard). */
  datatype ParseError =
    | ShortBuffer(at: nat)
    | UnsupportedType(code: nat)
    | UnsupportedClass(code: nat)
    | BadPointer(target: nat, at: nat)

  // ---------------------------------------------------------------- flags

  /** Every field fits its bit width: one bit, or four for opcode and reply code. */
  predicate FlagsInRange(f: Flags)
  {
    f.isResponse <= 1 && f.opcode <= 15 && f.authoritative <= 1 && f.truncated <= 1 &&
    f.recursionDesired <= 1 && f.recursionAvailable <= 1 && f.z <= 1 &&
    f.answerAuthenticated <= 1 && f.nonAuth <= 1 && f.replyCode <= 15
  }

  /** The ten fields shifted back to their bit positions, as one 16-bit word
      (the layout of section 4.1.1 of RFC 1035). */
  function PackFlags(f: Flags): bv16
  {
    (f.isResponse << 15) | (f.opcode << 11) | (f.authoritative << 10) |
    (f.truncated << 9) | (f.recursionDesired << 8) | (f.recursionAvailable << 7) |
    (f.z << 6) | (f.answerAuthenticated << 5) | (f.nonAuth << 4) | f.replyCode
  }

  /** Each field is the bit-slice of the word under its mask, shifted down; the
      fields fit their widths and re-packing them gives the word back. */
  function ParseFlags(w: bv16): (f: Flags)
    ensures FlagsInRange(f)
    ensures PackFlags(f) == w
  {
    Flags(
      (w & 0x8000) >> 15, (w & 0x7800) >> 11, (w & 0x0400) >> 10,
      (w & 0x0200) >> 9, (w & 0x0100) >> 8, (w & 0x0080) >> 7,
      (w & 0x0040) >> 6, (w & 0x0020) >> 5, (w & 0x0010) >> 4,
      w & 0x000F)
  }

  // ---------------------------------------------------------------- header

  /** The six header words; the id is decoded and then dropped by PackageOf. */
  datatype Header = Header(
    id: nat, flags: Flags, qdCount: nat, anCount: nat, nsCount: nat, arCount: nat)

  /** Fixed size of the header; the sections start right after it. */
  const HEADER_SIZE: nat := 12

  /** Big-endian unsigned 16-bit word at i. */
  function Word(buf: seq<byte>, i: nat): (v: nat)
    requires i + 2 <= |buf|
    ensures v < 0x1_0000
  {
    var hi: nat := buf[i];
    hi * 0x100 + buf[i + 1]
  }

  /** Big-endian unsigned 32-bit word at i (the ttl). */
  function Long(buf: seq<byte>, i: nat): (v: nat)
    requires i + 4 <= |buf|
    ensures v < 0x1_0000_0000
  {
    Word(buf, i) * 0x1_0000 + Word(buf, i + 2)
  }

  /** The flags word at i as a 16-bit vector. */
  function FlagsWord(buf: seq<byte>, i: nat): bv16
    requires i + 2 <= |buf|
  {
    ((buf[i] as bv16) << 8) | (buf[i + 1] as bv16)
  }

  /** `struct.unpack('! H H H H H H', bytes[:12])`: fails when fewer than 12 bytes arrived. */
  function HeaderOf(buf: seq<byte>): (r: Result<Header, ParseError>)
    ensures r.Success? <==> |buf| >= HEADER_SIZE
    ensures r.Failure? ==> r.error == ShortBuffer(|buf|)
    ensures r.Success? ==> var h := r.value;
      h.id < 0x1_0000 && h.qdCount < 0x1_0000 && h.anCount < 0x1_0000 && h.nsCount < 0x1_0000 && h.arCount < 0x1_0000
  {
    if |buf| < HEADER_SIZE then Failure(ShortBuffer(|buf|))
    else Success(Header(Word(buf, 0), ParseFlags(FlagsWord(buf, 2)),
                        Word(buf, 4), Word(buf, 6), Word(buf, 8), Word(buf, 10)))
  }

  // ---------------------------------------------------------------- names

  /** Label octets read as characters, one per byte. */
  function Label(bs: seq<byte>): (s: string)
    ensures |s| == |bs|
  {
    seq(|bs|, i requires 0 <= i < |bs| => bs[i] as char)
  }

  /** Whether a length byte opens a compression pointer (`length & 0xC0 == 0xC0`). */
  predicate IsPointer(length: byte)
  {
    length >= 0xC0
  }

  /** The 14-bit target `((hi & 0x3F) << 8) | lo` of a compression pointer. */
  function PointerTarget(hi: byte, lo: byte): (target: nat)
    requires IsPointer(hi)
    ensures target < 0x4000
  {
    (hi - 0xC0) * 0x100 + lo
  }

  /** Octets left after pos: the measure that label-by-label decoding consumes. */
  function Remaining(buf: seq<byte>, pos: nat): nat
  {
    if pos <= |buf| then |buf| - pos else 0
  }

  /** Decoding the name that starts at `start`, having reached `pos` with the
      labels `parts` collected so far. The result is the dotted name and the
      offset just past it. A pointer must target an offset before `start`:
      every pointer followed moves the name start strictly backwards, so
      decoding always ends. */
  function NameFrom(buf: seq<byte>, start: nat, pos: nat, parts: seq<string>): (r: Result<(string, nat), ParseError>)
    ensures r.Success? ==> pos < r.value.1 <= |buf|
    decreases start, Remaining(buf, pos)
  {
    if pos >= |buf| then Failure(ShortBuffer(pos))
    else
      var length := buf[pos];
      if length == 0 then Success((Text.Join(parts, "."), pos + 1))
      else if IsPointer(length) then
        if pos + 1 >= |buf| then Failure(ShortBuffer(pos + 1))
        else
          var target := PointerTarget(length, buf[pos + 1]);
          if target >= start then Failure(BadPointer(target, pos))
          else
            match NameAt(buf, target)
            case Failure(e) => Failure(e)
            case Success((ending, _)) => Success((Text.Join(parts + [ending], "."), pos + 2))
      else if pos + 1 + length > |buf| then Failure(ShortBuffer(|buf|))
      else NameFrom(buf, start, pos + 1 + length, parts + [Label(buf[pos + 1..pos + 1 + length])])
  }

  /** The name that starts at `offset`, and the offset just past it. */
  function NameAt(buf: seq<byte>, offset: nat): (r: Result<(string, nat), ParseError>)
    ensures r.Success? ==> offset < r.value.1 <= |buf|
    decreases offset, Remaining(buf, offset) + 1
  {
    NameFrom(buf, offset, offset, [])
  }

  // ---------------------------------------------------------------- records

  /** One question entry: name, then type and class. */
  function QueryAt(buf: seq<byte>, offset: nat): (r: Result<(Query, nat), ParseError>)
    ensures r.Success? ==> offset + 4 < r.value.1 <= |buf|
  {
    match NameAt(buf, offset)
    case Failure(e) => Failure(e)
    case Success((name, pos)) =>
      if pos + 4 > |buf| then Failure(ShortBuffer(pos))
      else
        var code, cls := Word(buf, pos), Word(buf, pos + 2);
        match TypeOf(code)
        case None => Failure(UnsupportedType(code))
        case Some(t) =>
          if cls != CLASS_IN then Failure(UnsupportedClass(cls))
          else Success((Query(t, name), pos + 4))
  }

  /** The rdata of an A or AAAA record: exactly `length` octets, or a failure
      when the datagram ends before them. */
  function RDataAt(buf: seq<byte>, start: nat, length: nat): (r: Result<(seq<byte>, nat), ParseError>)
    ensures r.Success? <==> start + length <= |buf|
    ensures r.Success? ==> |r.value.0| == length && r.value.1 == start + length
  {
    if start + length > |buf| then Failure(ShortBuffer(|buf|))
    else Success((buf[start..start + length], start + length))
  }

  /** One resource record: name, type, class, ttl, rdlength, then the data,
      read by type. */
  function AnswerAt(buf: seq<byte>, offset: nat): (r: Result<(Answer, nat), ParseError>)
    ensures r.Success? ==> offset + 10 < r.value.1 <= |buf|
  {
    match NameAt(buf, offset)
    case Failure(e) => Failure(e)
    case Success((name, pos)) =>
      if pos + 10 > |buf| then Failure(ShortBuffer(pos))
      else
        var code, cls, ttl, length := Word(buf, pos), Word(buf, pos + 2), Long(buf, pos + 4), Word(buf, pos + 8);
        match TypeOf(code)
        case None => Failure(UnsupportedType(code))
        case Some(t) =>
          if cls != CLASS_IN then Failure(UnsupportedClass(cls))
          else if t == A || t == AAAA then
            match RDataAt(buf, pos + 10, length)
            case Failure(e) => Failure(e)
            case Success((data, end)) => Success((Answer(t, name, ttl, Raw(data)), end))
          else
            match NameAt(buf, pos + 10)
            case Failure(e) => Failure(e)
            case Success((host, end)) => Success((Answer(t, name, ttl, DomainName(host)), end))
  }

  /** `count` more question entries from `pos`, appended to `acc`. */
  function QueriesFrom(buf: seq<byte>, pos: nat, count: nat, acc: seq<Query>): (r: Result<(seq<Query>, nat), ParseError>)
    ensures r.Success? ==> |r.value.0| == |acc| + count && r.value.0[..|acc|] == acc
    ensures r.Success? ==> pos <= r.value.1 && (count > 0 ==> r.value.1 <= |buf|)
    decreases count
  {
    if count == 0 then Success((acc, pos))
    else
      match QueryAt(buf, pos)
      case Failure(e) => Failure(e)
      case Success((q, next)) => QueriesFrom(buf, next, count - 1, acc + [q])
  }

  /** `count` more resource records from `pos`, appended to `acc`. */
  function AnswersFrom(buf: seq<byte>, pos: nat, count: nat, acc: seq<Answer>): (r: Result<(seq<Answer>, nat), ParseError>)
    ensures r.Success? ==> |r.value.0| == |acc| + count && r.value.0[..|acc|] == acc
    ensures r.Success? ==> pos <= r.value.1 && (count > 0 ==> r.value.1 <= |buf|)
    decreases count
  {
    if count == 0 then Success((acc, pos))
    else
      match AnswerAt(buf, pos)
      case Failure(e) => Failure(e)
      case Success((a, next)) => AnswersFrom(buf, next, count - 1, acc + [a])
  }

  /** The whole message: header, then the four counted sections in order,
      the first starting right after the header. */
  function PackageOf(buf: seq<byte>): (r: Result<Package, ParseError>)
    ensures HeaderOf(buf).Failure? ==> r == Failure(HeaderOf(buf).error)
    ensures r.Success? ==> HeaderOf(buf).Success?
    ensures r.Success? ==>
      var h, p := HeaderOf(buf).value, r.value;
      && p.flags == h.flags
      && |p.queries| == h.qdCount && |p.answers| == h.anCount
      && |p.authorities| == h.nsCount && |p.additional| == h.arCount
  {
    match HeaderOf(buf)
    case Failure(e) => Failure(e)
    case Success(h) =>
      match QueriesFrom(buf, HEADER_SIZE, h.qdCount, [])
      case Failure(e) => Failure(e)
      case Success((queries, p1)) =>
        match AnswersFrom(buf, p1, h.anCount, [])
        case Failure(e) => Failure(e)
        case Success((answers, p2)) =>
          match AnswersFrom(buf, p2, h.nsCount, [])
          case Failure(e) => Failure(e)
          case Success((authorities, p3)) =>
            match AnswersFrom(buf, p3, h.arCount, [])
            case Failure(e) => Failure(e)
            case Success((additional, _)) =>
              Success(Package(h.flags, queries, answers, authorities, additional))
  }

  // ---------------------------------------------------------------- the parser

  /** One decoding pass over a datagram (`_ParsingSession`): every reader takes
      an offset, returns the offset just past what it read, and is proved to
      compute the corresponding function above. */
  class ParsingSession {
    const bytes: seq<byte>

    constructor (bytes: seq<byte>)
      ensures this.bytes == bytes
    {
      this.bytes := bytes;
    }

    /** `_read_string`: labels until a zero byte, or until a pointer whose
        target is decoded by a recursive call. */
    method ReadString(offset: nat) returns (r: Result<(string, nat), ParseError>)
      ensures r == NameAt(bytes, offset)
      decreases offset
    {
      var parts: seq<string> := [];
      var pos: nat := offset;
      while true
        invariant NameFrom(bytes, offset, pos, parts) == NameAt(bytes, offset)
        decreases Remaining(bytes, pos)
      {
        if pos >= |bytes| {
          return Failure(ShortBuffer(pos));
        }
        var length := bytes[pos];
        if length == 0 {
          pos := pos + 1;
          return Success((Text.Join(parts, "."), pos));
        }
        if IsPointer(length) {
          if pos + 1 >= |bytes| {
            return Failure(ShortBuffer(pos + 1));
          }
          var pointer := PointerTarget(length, bytes[pos + 1]);
          if pointer >= offset {
            return Failure(BadPointer(pointer, pos));
          }
          var ending := ReadString(pointer);
          if ending.Failure? {
            return Failure(ending.error);
          }
          parts := parts + [ending.value.0];
          pos := pos + 2;
          return Success((Text.Join(parts, "."), pos));
        }
        var part := "";
        pos := pos + 1;
        ghost var first := pos;
        for k := 0 to length
          invariant pos == first + k <= |bytes|
          invariant part == Label(bytes[first..pos])
        {
          if pos >= |bytes| {
            return Failure(ShortBuffer(|bytes|));
          }
          part := part + [bytes[pos] as char];
          pos := pos + 1;
        }
        parts := parts + [part];
      }
    }

    /** `_read_query`: a name, then the 4-byte type/class block. */
    method ReadQuery(offset: nat) returns (r: Result<(Query, nat), ParseError>)
      ensures r == QueryAt(bytes, offset)
    {
      var name := ReadString(offset);
      if name.Failure? {
        return Failure(name.error);
      }
      var pos := name.value.1;
      if pos + 4 > |bytes| {
        return Failure(ShortBuffer(pos));
      }
      var code, cls := Word(bytes, pos), Word(bytes, pos + 2);
      pos := pos + 4;
      var t := TypeOf(code);
      if t.None? {
        return Failure(UnsupportedType(code));
      }
      if cls != CLASS_IN {
        return Failure(UnsupportedClass(cls));
      }
      return Success((Query(t.value, name.value.0), pos));
    }

    /** `_read_answer`: a name, the 10-byte type/class/ttl/rdlength block, then
        raw rdata for A and AAAA or a name for NS and PTR. */
    method ReadAnswer(offset: nat) returns (r: Result<(Answer, nat), ParseError>)
      ensures r == AnswerAt(bytes, offset)
    {
      var name := ReadString(offset);
      if name.Failure? {
        return Failure(name.error);
      }
      var pos := name.value.1;
      if pos + 10 > |bytes| {
        return Failure(ShortBuffer(pos));
      }
      var code, cls, ttl, length := Word(bytes, pos), Word(bytes, pos + 2), Long(bytes, pos + 4), Word(bytes, pos + 8);
      pos := pos + 10;
      var t := TypeOf(code);
      if t.None? {
        return Failure(UnsupportedType(code));
      }
      if cls != CLASS_IN {
        return Failure(UnsupportedClass(cls));
      }
      var data: Data;
      if t.value == A || t.value == AAAA {
        if pos + length > |bytes| {
          return Failure(ShortBuffer(|bytes|));
        }
        data := Raw(bytes[pos..pos + length]);
        pos := pos + length;
      } else {
        var host := ReadString(pos);
        if host.Failure? {
          return Failure(host.error);
        }
        data := DomainName(host.value.0);
        pos := host.value.1;
      }
      return Success((Answer(t.value, name.value.0, ttl, data), pos));
    }

    /** One of the `for i in range(count)` loops of `parse` over a section
        of resource records. */
    method ReadAnswers(offset: nat, count: nat) returns (r: Result<(seq<Answer>, nat), ParseError>)
      ensures r == AnswersFrom(bytes, offset, count, [])
    {
      var records: seq<Answer> := [];
      var pos := offset;
      for i := 0 to count
        invariant AnswersFrom(bytes, pos, count - i, records) == AnswersFrom(bytes, offset, count, [])
      {
        var a := ReadAnswer(pos);
        if a.Failure? {
          return Failure(a.error);
        }
        pos := a.value.1;
        records := records + [a.value.0];
      }
      return Success((records, pos));
    }

    /** `parse`: the header, then qdcount queries, ancount answers, nscount
        authorities and arcount additional records, threading one offset
        that starts right after the header. */
    method Parse() returns (r: Result<Package, ParseError>)
      ensures r == PackageOf(bytes)
    {
      if |bytes| < HEADER_SIZE {
        return Failure(ShortBuffer(|bytes|));
      }
      var qdCount, anCount, nsCount, arCount := Word(bytes, 4), Word(bytes, 6), Word(bytes, 8), Word(bytes, 10);
      var flags := ParseFlags(FlagsWord(bytes, 2));
      var queries: seq<Query> := [];
      var offset := HEADER_SIZE;
      for i := 0 to qdCount
        invariant QueriesFrom(bytes, offset, qdCount - i, queries) == QueriesFrom(bytes, HEADER_SIZE, qdCount, [])
      {
        var q := ReadQuery(offset);
        if q.Failure? {
          return Failure(q.error);
        }
        offset := q.value.1;
        queries := queries + [q.value.0];
      }
      var answers := ReadAnswers(offset, anCount);
      if answers.Failure? {
        return Failure(answers.error);
      }
      var authorities := ReadAnswers(answers.value.1, nsCount);
      if authorities.Failure? {
        return Failure(authorities.error);
      }
      var additional := ReadAnswers(authorities.value.1, arCount);
      if additional.Failure? {
        return Failure(additional.error);
      }
      return Success(Package(flags, queries, answers.value.0, authorities.value.0, additional.value.0));
    }
  }

  /** `Parser.parse`: a fresh session over the datagram. */
  method Parse(bytes: seq<byte>) returns (r: Result<Package, ParseError>)
    ensures r == PackageOf(bytes)
  {
    var session := new ParsingSession(bytes);
    r := session.Parse();
  }
}
