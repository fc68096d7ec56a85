/** The DNS message walk (cf_dns.c): header, questions and the three record sections. */
module DnsMessage {
  import opened Bytes
  import opened DnsName
  import opened DnsRdata

  const HEADER_LEN := 12
  const TYPE_OPT := 41

  datatype Warning =
    QuestionTruncated | NameMalformed | RrTruncated | RdataOverrun | SectionTruncated | OptionOverrun | MultipleOpt

  datatype Option<T> = None | Some(value: T)

  datatype Header = Header(id: u16, qr: bool, opcode: nat, aa: bool, tc: bool, rd: bool, ra: bool, ad: bool, cd: bool, rcode: nat,
                           qdcount: u16, ancount: u16, nscount: u16, arcount: u16)

  /** qname is the lowercased presentation form, wire the bytes the name occupies here. */
  datatype Question = Question(qname: seq<byte>, wire: seq<byte>, qtype: u16, qclass: u16)

  datatype Record = Record(name: seq<byte>, typ: u16, class_: u16, ttl: u32, rdata: seq<byte>, malformed: bool)

  /** The OPT pseudo-record read as section 6.1.3 of RFC 6891 lays it out. */
  datatype Edns = Edns(udpSize: u16, extendedRcode: nat, version: nat, doBit: bool, options: seq<EdnsOption>)

  datatype Message = Message(header: Header, questions: seq<Question>, answers: seq<Record>,
                             authority: seq<Record>, additional: seq<Record>, edns: Option<Edns>)

  /** Items read so far, the cursor, and the warnings raised. */
  datatype Walked<T> = Walked(items: seq<T>, pos: nat, warnings: seq<Warning>)

  /** A name as a field of the message: a C string, so it ends at its first NUL. */
  function NameField(labels: seq<Label>): (name: seq<byte>) {
    CString(Text(true, labels))
  }

  // ---------------------------------------------------------------- questions

  /** build_question: the question at pos, or the warning that ends the section. */
  datatype QuestionResult = Truncated(warnings: seq<Warning>) | Parsed(q: Question, next: nat, warnings: seq<Warning>)

  function ParseQuestion(msg: seq<byte>, pos: nat): (r: QuestionResult)
    requires pos <= |msg|
    ensures r.Parsed? ==> pos + 5 <= r.next <= |msg|
  {
    var d, n := Decode(msg, pos, 0, 0), Advance(msg, pos, 0);
    if n == 0 then Truncated([QuestionTruncated])
    else
      var w := if d.ok then [] else [NameMalformed];
      if pos + n + 4 > |msg| then Truncated(w + [QuestionTruncated])
      else Parsed(Question(NameField(d.labels), msg[pos..pos + n], Be16(msg, pos + n), Be16(msg, pos + n + 2)),
                  pos + n + 4, w)
  }

  function ParseQuestions(msg: seq<byte>, pos: nat, count: nat): (r: Walked<Question>)
    requires pos <= |msg|
    decreases count
  {
    if count == 0 then Walked([], pos, [])
    else if pos >= |msg| then Walked([], pos, [SectionTruncated])
    else match ParseQuestion(msg, pos)
      case Truncated(w) => Walked([], pos, w)
      case Parsed(q, next, w) =>
        var rest := ParseQuestions(msg, next, count - 1);
        Walked([q] + rest.items, rest.pos, w + rest.warnings)
  }

  // ---------------------------------------------------------------- records

  /** The fixed part of a record; len is what remains of the message when the declared length overruns it. */
  datatype RrHeader = RrHeader(name: seq<byte>, nameOk: bool, typ: u16, class_: u16, ttl: u32, off: nat, len: nat, overrun: bool)

  datatype RrResult = RrTruncatedAt(warnings: seq<Warning>) | RrParsed(h: RrHeader, next: nat, warnings: seq<Warning>)

  /** parse_rr_header */
  function ParseRr(msg: seq<byte>, pos: nat): (r: RrResult)
    requires pos <= |msg|
    ensures r.RrParsed? ==> pos + 11 <= r.next <= |msg| && r.next == r.h.off + r.h.len && pos + 11 <= r.h.off
  {
    var d, n := Decode(msg, pos, 0, 0), Advance(msg, pos, 0);
    if n == 0 then RrTruncatedAt([])
    else if pos + n + 10 > |msg| then RrTruncatedAt([RrTruncated])
    else
      var off := pos + n + 10;
      var len := Be16(msg, pos + n + 8);
      var overrun := off + len > |msg|;
      var next := if overrun then |msg| else off + len;
      RrParsed(RrHeader(NameField(d.labels), d.ok, Be16(msg, pos + n), Be16(msg, pos + n + 2), Be32(msg, pos + n + 4),
                        off, next - off, overrun),
               next,
               if overrun then [RdataOverrun] else if d.ok then [] else [NameMalformed])
  }

  ghost predicate Inside(msg: seq<byte>, h: RrHeader) {
    h.off + h.len <= |msg|
  }

  /** A record is malformed when its name is, its length overruns, or its data lacks the shape of its type. */
  ghost function RecordFrom(msg: seq<byte>, h: RrHeader): (r: Record)
    requires Inside(msg, h)
  {
    Record(h.name, h.typ, h.class_, h.ttl, msg[h.off..h.off + h.len],
           !h.nameOk || h.overrun || !WellFormed(msg, h.typ, h.off, h.len))
  }

  /** build_rr */
  method BuildRr(msg: seq<byte>, h: RrHeader) returns (r: Record)
    requires Inside(msg, h)
    ensures r == RecordFrom(msg, h)
  {
    hide WellFormed;
    var malformed := RdataMalformed(msg, h.typ, h.off, h.len);
    r := Record(h.name, h.typ, h.class_, h.ttl, msg[h.off..h.off + h.len], !h.nameOk || h.overrun || malformed);
  }

  function EdnsOf(class_: u16, ttl: u32, data: seq<byte>): (e: Edns) {
    Edns(class_, ttl / 0x100_0000, ttl / 0x1_0000 % 0x100, ttl / 0x8000 % 2 == 1, Options(data).options)
  }

  function OptionWarnings(data: seq<byte>): (w: seq<Warning>) {
    if Options(data).overrun then [OptionOverrun] else []
  }

  /** build_edns */
  method BuildEdns(msg: seq<byte>, h: RrHeader) returns (e: Edns, warnings: seq<Warning>)
    requires Inside(msg, h)
    ensures e == EdnsOf(h.class_, h.ttl, msg[h.off..h.off + h.len])
    ensures warnings == OptionWarnings(msg[h.off..h.off + h.len])
  {
    hide Options;
    var w := WalkOptions(msg, h.off, h.len);
    e := Edns(h.class_, h.ttl / 0x100_0000, h.ttl / 0x1_0000 % 0x100, h.ttl / 0x8000 % 2 == 1, w.options);
    warnings := if w.overrun then [OptionOverrun] else [];
  }

  ghost function ParseSection(msg: seq<byte>, pos: nat, count: nat): (r: Walked<Record>)
    requires pos <= |msg|
    decreases count
  {
    if count == 0 then Walked([], pos, [])
    else if pos >= |msg| then Walked([], pos, [SectionTruncated])
    else match ParseRr(msg, pos)
      case RrTruncatedAt(w) => Walked([], pos, w)
      case RrParsed(h, next, w) =>
        var rr := RecordFrom(msg, h);
        if h.overrun then Walked([rr], next, w)
        else
          var rest := ParseSection(msg, next, count - 1);
          Walked([rr] + rest.items, rest.pos, w + rest.warnings)
  }

  datatype Extra = Extra(records: seq<Record>, edns: Option<Edns>, pos: nat, warnings: seq<Warning>)

  /** What one record of the additional section adds: the first OPT record is diverted, further ones
      are dropped with a warning. */
  ghost function OneExtra(msg: seq<byte>, h: RrHeader, edns: Option<Edns>, pos: nat, warnings: seq<Warning>): (r: Extra)
    requires Inside(msg, h)
  {
    var data := msg[h.off..h.off + h.len];
    if h.typ != TYPE_OPT then Extra([RecordFrom(msg, h)], edns, pos, warnings)
    else if edns.None? then Extra([], Some(EdnsOf(h.class_, h.ttl, data)), pos, warnings + OptionWarnings(data))
    else Extra([], edns, pos, warnings + [MultipleOpt])
  }

  ghost function ParseAdditional(msg: seq<byte>, pos: nat, count: nat, edns: Option<Edns>): (r: Extra)
    requires pos <= |msg|
    decreases count
  {
    if count == 0 then Extra([], edns, pos, [])
    else if pos >= |msg| then Extra([], edns, pos, [SectionTruncated])
    else match ParseRr(msg, pos)
      case RrTruncatedAt(w) => Extra([], edns, pos, w)
      case RrParsed(h, next, w) =>
        var one := OneExtra(msg, h, edns, next, w);
        if h.overrun then one
        else
          var rest := ParseAdditional(msg, next, count - 1, one.edns);
          Extra(one.records + rest.records, rest.edns, rest.pos, one.warnings + rest.warnings)
  }

  function ParseHeader(msg: seq<byte>): (h: Header)
    requires HEADER_LEN <= |msg|
  {
    var f1, f2 := msg[2], msg[3];
    Header(Be16(msg, 0), f1 / 0x80 % 2 == 1, f1 / 8 % 0x10, f1 / 4 % 2 == 1, f1 / 2 % 2 == 1, f1 % 2 == 1,
           f2 / 0x80 % 2 == 1, f2 / 0x20 % 2 == 1, f2 / 0x10 % 2 == 1, f2 % 0x10,
           Be16(msg, 4), Be16(msg, 6), Be16(msg, 8), Be16(msg, 10))
  }

  /** EDNS folds its extended code into the header's low four bits. */
  function FoldRcode(h: Header, edns: Option<Edns>): (r: Header) {
    if edns.None? then h else h.(rcode := edns.value.extendedRcode * 0x10 + h.rcode % 0x10)
  }

  /** cf_dns_parse on a buffer; None when there is no room for a header. */
  ghost function ParseMessage(msg: seq<byte>): (r: Option<(Message, seq<Warning>)>) {
    if |msg| < HEADER_LEN then None
    else
      var h := ParseHeader(msg);
      var q := ParseQuestions(msg, HEADER_LEN, h.qdcount);
      WalkStays(msg, HEADER_LEN, h.qdcount);
      var an := ParseSection(msg, q.pos, h.ancount);
      SectionStays(msg, q.pos, h.ancount);
      var ns := ParseSection(msg, an.pos, h.nscount);
      SectionStays(msg, an.pos, h.nscount);
      var x := ParseAdditional(msg, ns.pos, h.arcount, None);
      Some((Message(FoldRcode(h, x.edns), q.items, an.items, ns.items, x.records, x.edns),
            q.warnings + an.warnings + ns.warnings + x.warnings))
  }

  // ---------------------------------------------------------------- the loops

  method RunQuestions(msg: seq<byte>, start: nat, count: nat) returns (r: Walked<Question>)
    requires start <= |msg|
    ensures r == ParseQuestions(msg, start, count)
  {
    hide ParseQuestion;
    var items, pos: nat, warnings := [], start, [];
    ghost var goal := ParseQuestions(msg, start, count);
    var i := 0;
    while i < count
      invariant i <= count && pos <= |msg|
      invariant goal == var rest := ParseQuestions(msg, pos, count - i);
                        Walked(items + rest.items, rest.pos, warnings + rest.warnings)
    {
      if pos >= |msg| {
        warnings := warnings + [SectionTruncated];
        return Walked(items, pos, warnings);
      }
      match ParseQuestion(msg, pos) {
        case Truncated(w) =>
          warnings := warnings + w;
          return Walked(items, pos, warnings);
        case Parsed(q, next, w) =>
          ghost var rest := ParseQuestions(msg, next, count - i - 1);
          assert items + ([q] + rest.items) == (items + [q]) + rest.items;
          assert warnings + (w + rest.warnings) == (warnings + w) + rest.warnings;
          items, pos, warnings := items + [q], next, warnings + w;
      }
      i := i + 1;
    }
    r := Walked(items, pos, warnings);
  }

  method RunSection(msg: seq<byte>, start: nat, count: nat) returns (r: Walked<Record>)
    requires start <= |msg|
    ensures r == ParseSection(msg, start, count)
  {
    hide RecordFrom;
    hide ParseRr;
    var items, pos: nat, warnings := [], start, [];
    ghost var goal := ParseSection(msg, start, count);
    var i := 0;
    while i < count
      invariant i <= count && pos <= |msg|
      invariant goal == var rest := ParseSection(msg, pos, count - i);
                        Walked(items + rest.items, rest.pos, warnings + rest.warnings)
    {
      if pos >= |msg| {
        warnings := warnings + [SectionTruncated];
        return Walked(items, pos, warnings);
      }
      match ParseRr(msg, pos) {
        case RrTruncatedAt(w) =>
          warnings := warnings + w;
          return Walked(items, pos, warnings);
        case RrParsed(h, next, w) =>
          var rr := BuildRr(msg, h);
          if h.overrun {
            return Walked(items + [rr], next, warnings + w);
          }
          ghost var rest := ParseSection(msg, next, count - i - 1);
          assert items + ([rr] + rest.items) == (items + [rr]) + rest.items;
          assert warnings + (w + rest.warnings) == (warnings + w) + rest.warnings;
          items, pos, warnings := items + [rr], next, warnings + w;
      }
      i := i + 1;
    }
    r := Walked(items, pos, warnings);
  }

  /** What the walk has produced so far, in front of what the rest of it produces. */
  function Before(records: seq<Record>, warnings: seq<Warning>, rest: Extra): (r: Extra) {
    Extra(records + rest.records, rest.edns, rest.pos, warnings + rest.warnings)
  }

  lemma BeforeTwice(r1: seq<Record>, w1: seq<Warning>, r2: seq<Record>, w2: seq<Warning>, rest: Extra)
    ensures Before(r1, w1, Before(r2, w2, rest)) == Before(r1 + r2, w1 + w2, rest)
  {
    assert r1 + (r2 + rest.records) == (r1 + r2) + rest.records;
    assert w1 + (w2 + rest.warnings) == (w1 + w2) + rest.warnings;
  }

  method RunAdditional(msg: seq<byte>, start: nat, count: nat) returns (r: Extra)
    requires start <= |msg|
    ensures r == ParseAdditional(msg, start, count, None)
  {
    hide ParseRr;
    hide Before;
    hide RecordFrom;
    hide EdnsOf;
    hide OptionWarnings;
    var records, edns, pos: nat, warnings := [], None, start, [];
    ghost var goal := ParseAdditional(msg, start, count, None);
    NothingBefore(goal);
    var i := 0;
    while i < count
      invariant i <= count && pos <= |msg|
      invariant goal == Before(records, warnings, ParseAdditional(msg, pos, count - i, edns))
    {
      if pos >= |msg| {
        EndOfWalk(records, warnings, [], edns, pos, [SectionTruncated]);
        return Extra(records + [], edns, pos, warnings + [SectionTruncated]);
      }
      var rr := ParseRr(msg, pos);
      if rr.RrTruncatedAt? {
        EndOfWalk(records, warnings, [], edns, pos, rr.warnings);
        return Extra(records + [], edns, pos, warnings + rr.warnings);
      }
      var kept, found := [], rr.warnings;
      ghost var one := OneExtra(msg, rr.h, edns, rr.next, rr.warnings);
      if rr.h.typ == TYPE_OPT {
        if edns.None? {
          var e, w := BuildEdns(msg, rr.h);
          edns, found := Some(e), found + w;
        } else {
          found := found + [MultipleOpt];
        }
      } else {
        var r := BuildRr(msg, rr.h);
        kept := [r];
      }
      assert one == Extra(kept, edns, rr.next, found);
      pos := rr.next;
      if rr.h.overrun {
        EndOfWalk(records, warnings, kept, edns, pos, found);
        return Extra(records + kept, edns, pos, warnings + found);
      }
      ghost var rest := ParseAdditional(msg, pos, count - i - 1, edns);
      assert goal == Before(records, warnings, Before(kept, found, rest)) by {
        Unfolded(kept, found, rest);
      }
      BeforeTwice(records, warnings, kept, found, rest);
      records, warnings := records + kept, warnings + found;
      i := i + 1;
    }
    EndOfWalk(records, warnings, [], edns, pos, []);
    r := Extra(records + [], edns, pos, warnings + []);
  }

  lemma NothingBefore(rest: Extra)
    ensures Before([], [], rest) == rest
  {
    assert [] + rest.records == rest.records && [] + rest.warnings == rest.warnings;
  }

  lemma Unfolded(kept: seq<Record>, found: seq<Warning>, rest: Extra)
    ensures Before(kept, found, rest) == Extra(kept + rest.records, rest.edns, rest.pos, found + rest.warnings)
  {
  }

  lemma EndOfWalk(records: seq<Record>, warnings: seq<Warning>, kept: seq<Record>, edns: Option<Edns>, pos: nat, found: seq<Warning>)
    ensures Before(records, warnings, Extra(kept, edns, pos, found)) == Extra(records + kept, edns, pos, warnings + found)
  {
  }

  /** cf_dns_parse as it runs. */
  method RunParse(msg: seq<byte>) returns (r: Option<(Message, seq<Warning>)>)
    ensures r == ParseMessage(msg)
  {
    hide ParseQuestions;
    hide ParseSection;
    hide ParseAdditional;
    hide ParseHeader;
    if |msg| < HEADER_LEN {
      return None;
    }
    var h := ParseHeader(msg);
    var q := RunQuestions(msg, HEADER_LEN, h.qdcount);
    WalkStays(msg, HEADER_LEN, h.qdcount);
    var an := RunSection(msg, q.pos, h.ancount);
    SectionStays(msg, q.pos, h.ancount);
    var ns := RunSection(msg, an.pos, h.nscount);
    SectionStays(msg, an.pos, h.nscount);
    var x := RunAdditional(msg, ns.pos, h.arcount);
    r := Some((Message(FoldRcode(h, x.edns), q.items, an.items, ns.items, x.records, x.edns),
               q.warnings + an.warnings + ns.warnings + x.warnings));
  }

  // ---------------------------------------------------------------- bounds

  /** The cursor never moves back or past the end, and each question costs at least five bytes. */
  lemma {:induction false} WalkStays(msg: seq<byte>, pos: nat, count: nat)
    requires pos <= |msg|
    ensures var r := ParseQuestions(msg, pos, count);
            pos + 5 * |r.items| <= r.pos <= |msg| && |r.items| <= count
    decreases count
  {
    hide ParseQuestion;
    if count > 0 && pos < |msg| {
      match ParseQuestion(msg, pos) {
        case Truncated(_) =>
        case Parsed(q, next, w) => WalkStays(msg, next, count - 1);
      }
    }
  }

  /** The same for a record section, where each record costs at least eleven bytes. */
  lemma {:induction false} SectionStays(msg: seq<byte>, pos: nat, count: nat)
    requires pos <= |msg|
    ensures var r := ParseSection(msg, pos, count);
            pos + 11 * |r.items| <= r.pos <= |msg| && |r.items| <= count
    decreases count
  {
    hide ParseRr;
    hide RecordFrom;
    if count > 0 && pos < |msg| {
      match ParseRr(msg, pos) {
        case RrTruncatedAt(_) =>
        case RrParsed(h, next, w) => if !h.overrun { SectionStays(msg, next, count - 1); }
      }
    }
  }

  // ---------------------------------------------------------------- the message as written

  /** The header as its writer means it (section 4.1.1 of RFC 1035, with the AD and CD bits of RFC 4035). */
  datatype HeaderSpec = HeaderSpec(id: u16, qr: bool, opcode: nat, aa: bool, tc: bool, rd: bool,
                                   ra: bool, z: bool, ad: bool, cd: bool, rcode: nat,
                                   qdcount: u16, ancount: u16, nscount: u16, arcount: u16)

  function Bit(b: bool): (n: nat)
    ensures n == if b then 1 else 0
  {
    if b then 1 else 0
  }

  function FirstFlags(qr: bool, opcode: nat, aa: bool, tc: bool, rd: bool): (f: byte)
    requires opcode < 0x10
  {
    0x80 * Bit(qr) + 8 * opcode + 4 * Bit(aa) + 2 * Bit(tc) + Bit(rd)
  }

  function SecondFlags(ra: bool, z: bool, ad: bool, cd: bool, rcode: nat): (f: byte)
    requires rcode < 0x10
  {
    0x80 * Bit(ra) + 0x40 * Bit(z) + 0x20 * Bit(ad) + 0x10 * Bit(cd) + rcode
  }

  predicate FitsHeader(h: HeaderSpec) {
    h.opcode < 0x10 && h.rcode < 0x10
  }

  function HeaderBytes(h: HeaderSpec): (s: seq<byte>)
    requires FitsHeader(h)
    ensures |s| == HEADER_LEN
  {
    Two(h.id)
    + [FirstFlags(h.qr, h.opcode, h.aa, h.tc, h.rd), SecondFlags(h.ra, h.z, h.ad, h.cd, h.rcode)]
    + Two(h.qdcount) + Two(h.ancount) + Two(h.nscount) + Two(h.arcount)
  }

  /** The fields of a header as the parser gives them; the reserved bit has none. */
  function HeaderFields(h: HeaderSpec, rcode: nat): (r: Header) {
    Header(h.id, h.qr, h.opcode, h.aa, h.tc, h.rd, h.ra, h.ad, h.cd, rcode, h.qdcount, h.ancount, h.nscount, h.arcount)
  }

  lemma FirstFlagsRead(qr: bool, opcode: nat, aa: bool, tc: bool, rd: bool)
    requires opcode < 0x10
    ensures var f := FirstFlags(qr, opcode, aa, tc, rd);
            && (f / 0x80 % 2 == 1 <==> qr) && f / 8 % 0x10 == opcode
            && (f / 4 % 2 == 1 <==> aa) && (f / 2 % 2 == 1 <==> tc) && (f % 2 == 1 <==> rd)
  {
    var f := 0x80 * Bit(qr) + 8 * opcode + 4 * Bit(aa) + 2 * Bit(tc) + Bit(rd);
    assert f / 8 == 0x10 * Bit(qr) + opcode && f / 0x80 == Bit(qr);
    assert f / 4 == 2 * (0x10 * Bit(qr) + opcode) + Bit(aa);
    assert f / 2 == 2 * (f / 4) + Bit(tc);
  }

  lemma SecondFlagsRead(ra: bool, z: bool, ad: bool, cd: bool, rcode: nat)
    requires rcode < 0x10
    ensures var f := SecondFlags(ra, z, ad, cd, rcode);
            && (f / 0x80 % 2 == 1 <==> ra) && (f / 0x20 % 2 == 1 <==> ad) && (f / 0x10 % 2 == 1 <==> cd)
            && f % 0x10 == rcode
  {
    var f := 0x80 * Bit(ra) + 0x40 * Bit(z) + 0x20 * Bit(ad) + 0x10 * Bit(cd) + rcode;
    assert f / 0x10 == 8 * Bit(ra) + 4 * Bit(z) + 2 * Bit(ad) + Bit(cd);
    assert f / 0x20 == 4 * Bit(ra) + 2 * Bit(z) + Bit(ad) && f / 0x80 == Bit(ra);
  }

  /** Where the parts of a header stand. */
  lemma HeaderParts(s: seq<byte>, a: seq<byte>, f: seq<byte>, c: seq<byte>, d: seq<byte>, e: seq<byte>, g: seq<byte>)
    requires |s| == HEADER_LEN && |a| == |f| == |c| == |d| == |e| == |g| == 2
    ensures s == a + f + c + d + e + g
            <==> s[0..2] == a && s[2..4] == f && s[4..6] == c && s[6..8] == d && s[8..10] == e && s[10..12] == g
  {
    assert s == s[0..2] + s[2..4] + s[4..6] + s[6..8] + s[8..10] + s[10..12];
    var t := a + f + c + d + e + g;
    assert t[0..2] == a && t[2..4] == f && t[4..6] == c && t[6..8] == d && t[8..10] == e && t[10..12] == g;
  }

  /** A written header parses back field by field. */
  lemma HeaderReadsBack(msg: seq<byte>, h: HeaderSpec)
    requires FitsHeader(h) && |msg| >= HEADER_LEN && msg[..HEADER_LEN] == HeaderBytes(h)
    ensures ParseHeader(msg) == HeaderFields(h, h.rcode)
  {
    hide FirstFlags;
    hide SecondFlags;
    hide Two;
    hide Be16;
    FirstFlagsRead(h.qr, h.opcode, h.aa, h.tc, h.rd);
    SecondFlagsRead(h.ra, h.z, h.ad, h.cd, h.rcode);
    var f := [FirstFlags(h.qr, h.opcode, h.aa, h.tc, h.rd), SecondFlags(h.ra, h.z, h.ad, h.cd, h.rcode)];
    var s := msg[..HEADER_LEN];
    HeaderParts(s, Two(h.id), f, Two(h.qdcount), Two(h.ancount), Two(h.nscount), Two(h.arcount));
    assert s[0..2] == msg[0..2] && s[4..6] == msg[4..6] && s[6..8] == msg[6..8] && s[8..10] == msg[8..10] && s[10..12] == msg[10..12];
    assert msg[2] == s[2..4][0] && msg[3] == s[2..4][1];
    ReadsTwo(msg, 0, h.id);
    ReadsTwo(msg, 4, h.qdcount);
    ReadsTwo(msg, 6, h.ancount);
    ReadsTwo(msg, 8, h.nscount);
    ReadsTwo(msg, 10, h.arcount);
  }

  /** Every header is a written one. */
  lemma HeaderIsWritten(msg: seq<byte>) returns (h: HeaderSpec)
    requires |msg| >= HEADER_LEN
    ensures FitsHeader(h) && msg[..HEADER_LEN] == HeaderBytes(h)
  {
    hide FirstFlags;
    hide SecondFlags;
    hide Two;
    hide Be16;
    var f1, f2 := msg[2], msg[3];
    FirstFlagsWritten(f1);
    SecondFlagsWritten(f2);
    h := HeaderSpec(Be16(msg, 0), f1 / 0x80 == 1, f1 / 8 % 0x10, f1 / 4 % 2 == 1, f1 / 2 % 2 == 1, f1 % 2 == 1,
                    f2 / 0x80 == 1, f2 / 0x40 % 2 == 1, f2 / 0x20 % 2 == 1, f2 / 0x10 % 2 == 1, f2 % 0x10,
                    Be16(msg, 4), Be16(msg, 6), Be16(msg, 8), Be16(msg, 10));
    var s := msg[..HEADER_LEN];
    ReadsTwo(msg, 0, h.id);
    ReadsTwo(msg, 4, h.qdcount);
    ReadsTwo(msg, 6, h.ancount);
    ReadsTwo(msg, 8, h.nscount);
    ReadsTwo(msg, 10, h.arcount);
    assert s[0..2] == msg[0..2] && s[4..6] == msg[4..6] && s[6..8] == msg[6..8] && s[8..10] == msg[8..10] && s[10..12] == msg[10..12];
    assert s[2..4] == [f1, f2];
    HeaderParts(s, Two(h.id), [f1, f2], Two(h.qdcount), Two(h.ancount), Two(h.nscount), Two(h.arcount));
  }

  lemma FirstFlagsWritten(f: byte)
    ensures f == FirstFlags(f / 0x80 == 1, f / 8 % 0x10, f / 4 % 2 == 1, f / 2 % 2 == 1, f % 2 == 1)
  {
    Halved(f, f / 2);
    Halved(f / 2, f / 4);
    Halved(f / 4, f / 8);
    assert f / 8 == 0x10 * (f / 0x80) + f / 8 % 0x10;
  }

  lemma Halved(a: nat, b: nat)
    requires b == a / 2
    ensures a == 2 * b + Bit(a % 2 == 1)
  {
  }

  lemma SecondFlagsWritten(f: byte)
    ensures f == SecondFlags(f / 0x80 == 1, f / 0x40 % 2 == 1, f / 0x20 % 2 == 1, f / 0x10 % 2 == 1, f % 0x10)
  {
    Halved(f / 0x10, f / 0x20);
    Halved(f / 0x20, f / 0x40);
    Halved(f / 0x40, f / 0x80);
  }

  /** The time to live of an OPT record as section 6.1.3 of RFC 6891 lays it out; z are its reserved bits. */
  function OptTtl(extendedRcode: byte, version: byte, doBit: bool, z: nat): (ttl: u32)
    requires z < 0x8000
  {
    extendedRcode as int * 0x100_0000 + version as int * 0x1_0000 + 0x8000 * Bit(doBit) + z
  }

  lemma OptTtlReads(extendedRcode: byte, version: byte, doBit: bool, z: nat)
    requires z < 0x8000
    ensures var ttl := OptTtl(extendedRcode, version, doBit, z);
            && ttl / 0x100_0000 == extendedRcode && ttl / 0x1_0000 % 0x100 == version && (ttl / 0x8000 % 2 == 1 <==> doBit)
  {
    var ttl := OptTtl(extendedRcode, version, doBit, z);
    assert ttl / 0x1_0000 == extendedRcode as int * 0x100 + version;
    assert ttl / 0x8000 == 2 * (ttl / 0x1_0000) + Bit(doBit);
  }

  /** The fields of a written OPT record come back. */
  lemma EdnsReadsBack(size: u16, extendedRcode: byte, version: byte, doBit: bool, z: nat, options: seq<EdnsOption>, tail: seq<byte>)
    requires z < 0x8000 && Encodable(options) && |tail| < 4
    ensures EdnsOf(size, OptTtl(extendedRcode, version, doBit, z), Encoded(options) + tail)
            == Edns(size, extendedRcode, version, doBit, options)
    ensures OptionWarnings(Encoded(options) + tail) == []
  {
    hide OptTtl;
    OptTtlReads(extendedRcode, version, doBit, z);
    OptionsWalkBack(options, tail);
  }

  /** A question as its writer means it, and the bytes its name takes where it stands. */
  datatype QuestionSpec = QuestionSpec(labels: seq<Label>, wire: seq<byte>, qtype: u16, qclass: u16)

  /** A record as its writer means it; fine says that the data has the shape of its type. */
  datatype RecordSpec = RecordSpec(labels: seq<Label>, typ: u16, class_: u16, ttl: u32, rdata: seq<byte>, fine: bool)

  ghost predicate QuestionsAt(msg: seq<byte>, pos: nat, qs: seq<QuestionSpec>, end: nat)
    decreases |qs|
  {
    if qs == [] then pos == end
    else exists n: nat :: QuestionAt(msg, pos, qs[0], n) && QuestionsAt(msg, n, qs[1..], end)
  }

  /** One question, its name possibly compressed, from pos up to end. */
  ghost predicate QuestionAt(msg: seq<byte>, pos: nat, q: QuestionSpec, end: nat) {
    && 4 <= end <= |msg| && NameAt(msg, pos, q.labels, end - 4) && pos + 4 <= end && msg[pos..end - 4] == q.wire
    && msg[end - 4..end] == Two(q.qtype) + Two(q.qclass)
  }

  ghost predicate RecordAt(msg: seq<byte>, pos: nat, r: RecordSpec, end: nat) {
    && |r.rdata| < 0x1_0000 && |r.rdata| + 10 <= end <= |msg|
    && var off := end - |r.rdata|;
       && NameAt(msg, pos, r.labels, off - 10)
       && msg[off - 10..off] == Two(r.typ) + Two(r.class_) + Four(r.ttl) + Two(|r.rdata|) && msg[off..end] == r.rdata
       && (r.fine <==> WellFormed(msg, r.typ, off, |r.rdata|))
  }

  ghost predicate RecordsAt(msg: seq<byte>, pos: nat, rs: seq<RecordSpec>, end: nat)
    decreases |rs|
  {
    if rs == [] then pos == end
    else exists n: nat :: RecordAt(msg, pos, rs[0], n) && RecordsAt(msg, n, rs[1..], end)
  }

  ghost predicate Reads(q: Question, s: QuestionSpec) {
    q.qname == NameField(s.labels) && q.wire == s.wire && q.qtype == s.qtype && q.qclass == s.qclass
  }

  ghost predicate AllRead(items: seq<Question>, qs: seq<QuestionSpec>)
    decreases |qs|
  {
    |items| == |qs| && (qs != [] ==> Reads(items[0], qs[0]) && AllRead(items[1..], qs[1..]))
  }

  function RecordOf(s: RecordSpec): (r: Record) {
    Record(NameField(s.labels), s.typ, s.class_, s.ttl, s.rdata, !s.fine)
  }

  function RecordsOf(rs: seq<RecordSpec>): (r: seq<Record>) {
    if rs == [] then [] else [RecordOf(rs[0])] + RecordsOf(rs[1..])
  }

  lemma {:induction false} NameReads(msg: seq<byte>, pos: nat, labels: seq<Label>, end: nat)
    requires NameAt(msg, pos, labels, end)
    ensures Decode(msg, pos, 0, 0) == Decoded(true, labels) && Advance(msg, pos, 0) > 0
  {
    DecodesExactlyTheEncodedName(msg, pos, labels);
    AdvanceStaysInside(msg, pos);
  }

  lemma {:induction false} QuestionReads(msg: seq<byte>, pos: nat, s: QuestionSpec, end: nat)
    requires QuestionAt(msg, pos, s, end)
    ensures pos < end <= |msg|
    ensures var r := ParseQuestion(msg, pos); r.Parsed? && r.next == end && r.warnings == [] && Reads(r.q, s)
  {
    NameReads(msg, pos, s.labels, end - 4);
    ReadsPair(msg, end - 4, s.qtype, s.qclass);
  }

  lemma ReadsPair(msg: seq<byte>, i: nat, a: u16, b: u16)
    requires i + 4 <= |msg|
    ensures msg[i..i + 4] == Two(a) + Two(b) <==> Be16(msg, i) == a && Be16(msg, i + 2) == b
  {
    hide Two;
    hide Be16;
    ReadsTwo(msg, i, a);
    ReadsTwo(msg, i + 2, b);
    var t := msg[i..i + 4];
    assert t == msg[i..i + 2] + msg[i + 2..i + 4] && t[..2] == msg[i..i + 2] && t[2..] == msg[i + 2..i + 4];
    assert (Two(a) + Two(b))[..2] == Two(a) && (Two(a) + Two(b))[2..] == Two(b);
  }

  lemma ReadsRecordHeader(msg: seq<byte>, i: nat, typ: u16, class_: u16, ttl: u32, len: u16)
    requires i + 10 <= |msg|
    ensures msg[i..i + 10] == Two(typ) + Two(class_) + Four(ttl) + Two(len)
            <==> && Be16(msg, i) == typ && Be16(msg, i + 2) == class_ && Be32(msg, i + 4) == ttl && Be16(msg, i + 8) == len
  {
    hide Two;
    hide Four;
    hide Be16;
    hide Be32;
    ReadsPair(msg, i, typ, class_);
    ReadsFour(msg, i + 4, ttl);
    ReadsTwo(msg, i + 8, len);
    var t, u := msg[i..i + 10], Two(typ) + Two(class_) + Four(ttl) + Two(len);
    assert t == msg[i..i + 4] + msg[i + 4..i + 8] + msg[i + 8..i + 10];
    assert t[..4] == msg[i..i + 4] && t[4..8] == msg[i + 4..i + 8] && t[8..] == msg[i + 8..i + 10];
    assert u[..4] == Two(typ) + Two(class_) && u[4..8] == Four(ttl) && u[8..] == Two(len);
  }

  function HeaderOf(s: RecordSpec, end: nat): (h: RrHeader)
    requires |s.rdata| <= end
  {
    RrHeader(NameField(s.labels), true, s.typ, s.class_, s.ttl, end - |s.rdata|, |s.rdata|, false)
  }

  lemma {:induction false} RecordReads(msg: seq<byte>, pos: nat, s: RecordSpec, end: nat)
    requires RecordAt(msg, pos, s, end)
    ensures pos < end <= |msg| && |s.rdata| <= end && msg[end - |s.rdata|..end] == s.rdata
    ensures ParseRr(msg, pos) == RrParsed(HeaderOf(s, end), end, [])
    ensures RecordFrom(msg, HeaderOf(s, end)) == RecordOf(s)
  {
    hide WellFormed;
    NameReads(msg, pos, s.labels, end - |s.rdata| - 10);
    ReadsRecordHeader(msg, end - |s.rdata| - 10, s.typ, s.class_, s.ttl, |s.rdata|);
  }

  lemma {:induction false} QuestionsRead(msg: seq<byte>, pos: nat, qs: seq<QuestionSpec>, end: nat)
    requires pos <= |msg| && QuestionsAt(msg, pos, qs, end)
    ensures var r := ParseQuestions(msg, pos, |qs|);
            r.pos == end && r.warnings == [] && AllRead(r.items, qs)
    decreases |qs|
  {
    hide QuestionAt;
    hide ParseQuestion;
    hide Reads;
    if qs != [] {
      var n: nat :| QuestionAt(msg, pos, qs[0], n) && QuestionsAt(msg, n, qs[1..], end);
      QuestionReads(msg, pos, qs[0], n);
      QuestionsRead(msg, n, qs[1..], end);
    }
  }

  lemma {:induction false} SectionReads(msg: seq<byte>, pos: nat, rs: seq<RecordSpec>, end: nat)
    requires pos <= |msg| && RecordsAt(msg, pos, rs, end)
    ensures ParseSection(msg, pos, |rs|) == Walked(RecordsOf(rs), end, [])
    decreases |rs|
  {
    hide RecordAt;
    hide ParseRr;
    hide RecordFrom;
    if rs != [] {
      var n: nat :| RecordAt(msg, pos, rs[0], n) && RecordsAt(msg, n, rs[1..], end);
      RecordReads(msg, pos, rs[0], n);
      SectionReads(msg, n, rs[1..], end);
    }
  }

  function Ordinary(rs: seq<RecordSpec>): (r: seq<RecordSpec>) {
    if rs == [] then [] else (if rs[0].typ == 41 then [] else [rs[0]]) + Ordinary(rs[1..])
  }

  function Opts(rs: seq<RecordSpec>): (r: seq<RecordSpec>) {
    if rs == [] then [] else (if rs[0].typ == 41 then [rs[0]] else []) + Opts(rs[1..])
  }

  function Repeated(w: Warning, n: nat): (s: seq<Warning>)
    ensures |s| == n && forall i :: 0 <= i < n ==> s[i] == w
  {
    if n == 0 then [] else [w] + Repeated(w, n - 1)
  }

  /** Only the first OPT record is read. */
  function EdnsIn(opts: seq<RecordSpec>, seen: Option<Edns>): (e: Option<Edns>) {
    if seen.Some? || opts == [] then seen else Some(EdnsOf(opts[0].class_, opts[0].ttl, opts[0].rdata))
  }

  /** The first may have an overlong option, and every further one is warned about. */
  function OptWarnings(opts: seq<RecordSpec>, seen: bool): (w: seq<Warning>) {
    if opts == [] then []
    else if seen then Repeated(MultipleOpt, |opts|)
    else OptionWarnings(opts[0].rdata) + Repeated(MultipleOpt, |opts| - 1)
  }

  /** What the walk makes of the records as written. */
  function Expected(rs: seq<RecordSpec>, end: nat, seen: Option<Edns>): (x: Extra) {
    Extra(RecordsOf(Ordinary(rs)), EdnsIn(Opts(rs), seen), end, OptWarnings(Opts(rs), seen.Some?))
  }

  lemma {:induction false} AdditionalReads(msg: seq<byte>, pos: nat, rs: seq<RecordSpec>, end: nat, seen: Option<Edns>)
    requires pos <= |msg| && RecordsAt(msg, pos, rs, end)
    ensures ParseAdditional(msg, pos, |rs|, seen) == Expected(rs, end, seen)
    decreases |rs|
  {
    hide RecordAt;
    hide Expected;
    hide ParseAdditional;
    if rs == [] {
      NothingExtra(msg, pos, seen);
    } else {
      var n: nat :| RecordAt(msg, pos, rs[0], n) && RecordsAt(msg, n, rs[1..], end);
      RecordReads(msg, pos, rs[0], n);
      AdditionalReads(msg, n, rs[1..], end, OneExtra(msg, HeaderOf(rs[0], n), seen, n, []).edns);
      ExtraUnfolds(msg, pos, rs[0], n, |rs|, seen);
      OneMoreExtra(msg, rs, n, end, seen);
    }
  }

  lemma NothingExtra(msg: seq<byte>, pos: nat, seen: Option<Edns>)
    requires pos <= |msg|
    ensures ParseAdditional(msg, pos, 0, seen) == Expected([], pos, seen)
  {
  }

  lemma ExtraUnfolds(msg: seq<byte>, pos: nat, s: RecordSpec, n: nat, count: nat, seen: Option<Edns>)
    requires RecordAt(msg, pos, s, n) && pos <= |msg| && count > 0
    ensures |s.rdata| <= n <= |msg|
    ensures var one := OneExtra(msg, HeaderOf(s, n), seen, n, []);
            var rest := ParseAdditional(msg, n, count - 1, one.edns);
            ParseAdditional(msg, pos, count, seen)
            == Extra(one.records + rest.records, rest.edns, rest.pos, one.warnings + rest.warnings)
  {
    hide RecordAt;
    hide ParseRr;
    hide OneExtra;
    RecordReads(msg, pos, s, n);
  }

  lemma OneMoreExtra(msg: seq<byte>, rs: seq<RecordSpec>, n: nat, end: nat, seen: Option<Edns>)
    requires rs != [] && |rs[0].rdata| <= n <= |msg| && msg[n - |rs[0].rdata|..n] == rs[0].rdata
    requires RecordFrom(msg, HeaderOf(rs[0], n)) == RecordOf(rs[0])
    ensures var one := OneExtra(msg, HeaderOf(rs[0], n), seen, n, []);
            var rest := Expected(rs[1..], end, one.edns);
            Expected(rs, end, seen) == Extra(one.records + rest.records, rest.edns, rest.pos, one.warnings + rest.warnings)
  {
    hide OptionWarnings;
    hide EdnsOf;
    hide RecordFrom;
    hide RecordOf;
    hide Opts;
    hide Ordinary;
    hide RecordsOf;
    hide OptWarnings;
    SplitFirst(rs);
    var one := OneExtra(msg, HeaderOf(rs[0], n), seen, n, []);
    var rest := Expected(rs[1..], end, one.edns);
    if rs[0].typ == TYPE_OPT {
      MoreOptWarnings(rs[0], Opts(rs[1..]), seen.Some?);
      assert one.records + rest.records == rest.records;
    } else {
      assert one.warnings + rest.warnings == rest.warnings;
    }
  }

  lemma SplitFirst(rs: seq<RecordSpec>)
    requires rs != []
    ensures rs[0].typ == TYPE_OPT ==> Opts(rs) == [rs[0]] + Opts(rs[1..]) && Ordinary(rs) == Ordinary(rs[1..])
    ensures rs[0].typ != TYPE_OPT ==>
              Opts(rs) == Opts(rs[1..]) && RecordsOf(Ordinary(rs)) == [RecordOf(rs[0])] + RecordsOf(Ordinary(rs[1..]))
  {
    hide RecordOf;
    if rs[0].typ != TYPE_OPT {
      assert ([rs[0]] + Ordinary(rs[1..]))[1..] == Ordinary(rs[1..]);
    }
  }

  lemma MoreOptWarnings(opt: RecordSpec, opts: seq<RecordSpec>, seen: bool)
    ensures OptWarnings([opt] + opts, seen)
            == ([] + if seen then [MultipleOpt] else OptionWarnings(opt.rdata)) + OptWarnings(opts, true)
  {
    hide OptionWarnings;
    assert OptWarnings(opts, true) == Repeated(MultipleOpt, |opts|);
    assert Repeated(MultipleOpt, |opts| + 1) == [MultipleOpt] + Repeated(MultipleOpt, |opts|);
  }

  /** Round trip: a message whose header is written with the counts of the questions and records behind
      it, with names compressed in any legal way, parses back to them. The header comes back field by
      field, and ordinary records as they were written, marked malformed exactly when their data lacks
      the shape of their type; the first OPT record comes back as EDNS with its extended code put in
      front of the header's; and the only warnings are for an overlong option in it and for every
      further OPT record. */
  lemma {:induction false} WrittenMessageParsesBack(msg: seq<byte>, h: HeaderSpec, qs: seq<QuestionSpec>, an: seq<RecordSpec>,
                                 ns: seq<RecordSpec>, ar: seq<RecordSpec>, p1: nat, p2: nat, p3: nat, p4: nat)
    requires HEADER_LEN <= |msg| && FitsHeader(h) && msg[..HEADER_LEN] == HeaderBytes(h)
    requires h.qdcount == |qs| && h.ancount == |an| && h.nscount == |ns| && h.arcount == |ar|
    requires QuestionsAt(msg, HEADER_LEN, qs, p1) && RecordsAt(msg, p1, an, p2) && RecordsAt(msg, p2, ns, p3)
    requires RecordsAt(msg, p3, ar, p4)
    ensures ParseMessage(msg).Some?
    ensures var (m, warnings) := ParseMessage(msg).value;
            var edns := EdnsIn(Opts(ar), None);
            && AllRead(m.questions, qs) && m.answers == RecordsOf(an) && m.authority == RecordsOf(ns)
            && m.additional == RecordsOf(Ordinary(ar)) && m.edns == edns
            && m.header == HeaderFields(h, if edns.None? then h.rcode else 16 * edns.value.extendedRcode + h.rcode)
            && warnings == OptWarnings(Opts(ar), false)
  {
    hide QuestionsAt;
    hide RecordsAt;
    hide ParseHeader;
    hide ParseQuestions;
    hide ParseSection;
    hide ParseAdditional;
    hide AllRead;
    hide RecordsOf;
    hide Opts;
    hide Ordinary;
    hide EdnsIn;
    hide OptWarnings;
    HeaderReadsBack(msg, h);
    QuestionsRead(msg, HEADER_LEN, qs, p1);
    WalkStays(msg, HEADER_LEN, |qs|);
    SectionReads(msg, p1, an, p2);
    SectionStays(msg, p1, |an|);
    SectionReads(msg, p2, ns, p3);
    SectionStays(msg, p2, |ns|);
    AdditionalReads(msg, p3, ar, p4, None);
  }

  // ---------------------------------------------------------------- a clean parse is of a written message

  lemma {:induction false} QuestionIsWritten(msg: seq<byte>, pos: nat) returns (s: QuestionSpec)
    requires pos <= |msg| && ParseQuestion(msg, pos).Parsed? && ParseQuestion(msg, pos).warnings == []
    ensures QuestionAt(msg, pos, s, ParseQuestion(msg, pos).next)
  {
    hide Two;
    var d, n := Decode(msg, pos, 0, 0), Advance(msg, pos, 0);
    var i := pos + n;
    s := QuestionSpec(d.labels, msg[pos..i], Be16(msg, i), Be16(msg, i + 2));
    DecodesExactlyTheEncodedName(msg, pos, d.labels);
    ReadsPair(msg, i, s.qtype, s.qclass);
  }

  lemma {:induction false} QuestionsAreWritten(msg: seq<byte>, pos: nat, count: nat) returns (qs: seq<QuestionSpec>)
    requires pos <= |msg|
    requires var r := ParseQuestions(msg, pos, count); r.warnings == [] && |r.items| == count
    ensures |qs| == count && QuestionsAt(msg, pos, qs, ParseQuestions(msg, pos, count).pos)
    decreases count
  {
    hide ParseQuestion;
    hide QuestionAt;
    qs := [];
    if count > 0 {
      var p := ParseQuestion(msg, pos);
      var s := QuestionIsWritten(msg, pos);
      var rest := QuestionsAreWritten(msg, p.next, count - 1);
      qs := [s] + rest;
      assert qs[1..] == rest && QuestionAt(msg, pos, qs[0], p.next);
    }
  }

  lemma {:induction false} RecordIsWritten(msg: seq<byte>, pos: nat) returns (s: RecordSpec)
    requires pos <= |msg| && ParseRr(msg, pos).RrParsed? && ParseRr(msg, pos).warnings == []
    ensures var r := ParseRr(msg, pos);
            && RecordAt(msg, pos, s, r.next) && RecordFrom(msg, r.h) == RecordOf(s) && s.typ == r.h.typ && !r.h.overrun
  {
    hide Two;
    hide Four;
    hide WellFormed;
    var r := ParseRr(msg, pos);
    var d, h := Decode(msg, pos, 0, 0), r.h;
    s := RecordSpec(d.labels, h.typ, h.class_, h.ttl, msg[h.off..r.next], WellFormed(msg, h.typ, h.off, h.len));
    DecodesExactlyTheEncodedName(msg, pos, d.labels);
    ReadsRecordHeader(msg, h.off - 10, h.typ, h.class_, h.ttl, h.len);
  }

  lemma {:induction false} SectionIsWritten(msg: seq<byte>, pos: nat, count: nat) returns (rs: seq<RecordSpec>)
    requires pos <= |msg|
    requires var r := ParseSection(msg, pos, count); r.warnings == [] && |r.items| == count
    ensures |rs| == count && RecordsAt(msg, pos, rs, ParseSection(msg, pos, count).pos)
    decreases count
  {
    hide ParseRr;
    hide RecordAt;
    hide RecordFrom;
    rs := [];
    if count > 0 {
      var p := ParseRr(msg, pos);
      var s := RecordIsWritten(msg, pos);
      var rest := SectionIsWritten(msg, p.next, count - 1);
      rs := [s] + rest;
      assert rs[1..] == rest && RecordAt(msg, pos, rs[0], p.next);
    }
  }

  /** The additional section reports one entry for each of its records: it is complete and unremarkable. */
  ghost predicate CleanExtra(x: Extra, count: nat, seen: Option<Edns>) {
    x.warnings == [] && |x.records| + (if x.edns.Some? && seen.None? then 1 else 0) == count
  }

  lemma {:induction false} AdditionalIsWritten(msg: seq<byte>, pos: nat, count: nat, seen: Option<Edns>) returns (rs: seq<RecordSpec>)
    requires pos <= |msg| && CleanExtra(ParseAdditional(msg, pos, count, seen), count, seen)
    ensures |rs| == count && RecordsAt(msg, pos, rs, ParseAdditional(msg, pos, count, seen).pos)
    decreases count
  {
    hide ParseRr;
    hide RecordAt;
    hide RecordFrom;
    hide EdnsOf;
    hide OptionWarnings;
    rs := [];
    if count > 0 {
      AtMostCount(msg, pos, count, seen);
      var p := ParseRr(msg, pos);
      var s := RecordIsWritten(msg, pos);
      var one := OneExtra(msg, p.h, seen, p.next, p.warnings);
      AtMostCount(msg, p.next, count - 1, one.edns);
      var rest := AdditionalIsWritten(msg, p.next, count - 1, one.edns);
      rs := [s] + rest;
      assert rs[1..] == rest && RecordAt(msg, pos, rs[0], p.next);
    }
  }

  /** No walk reports more than it was asked for, and EDNS, once seen, stays. */
  lemma {:induction false} AtMostCount(msg: seq<byte>, pos: nat, count: nat, seen: Option<Edns>)
    requires pos <= |msg|
    ensures var x := ParseAdditional(msg, pos, count, seen);
            && |x.records| + (if x.edns.Some? && seen.None? then 1 else 0) <= count && (seen.Some? ==> x.edns == seen)
    decreases count
  {
    hide ParseRr;
    hide RecordFrom;
    hide EdnsOf;
    if count > 0 && pos < |msg| && ParseRr(msg, pos).RrParsed? {
      var p := ParseRr(msg, pos);
      if !p.h.overrun {
        AtMostCount(msg, p.next, count - 1, OneExtra(msg, p.h, seen, p.next, p.warnings).edns);
      }
    }
  }

  /** The converse of the round trip: when nothing is warned about and every section yields what the
      header announces, the message is written as its questions and records say. */
  lemma {:induction false} CleanMessageIsWritten(msg: seq<byte>)
    returns (h: HeaderSpec, qs: seq<QuestionSpec>, an: seq<RecordSpec>, ns: seq<RecordSpec>, ar: seq<RecordSpec>,
             p1: nat, p2: nat, p3: nat, p4: nat)
    requires ParseMessage(msg).Some?
    requires var (m, warnings) := ParseMessage(msg).value;
             && warnings == [] && |m.questions| == m.header.qdcount && |m.answers| == m.header.ancount
             && |m.authority| == m.header.nscount && |m.additional| + (if m.edns.Some? then 1 else 0) == m.header.arcount
    ensures FitsHeader(h) && |msg| >= HEADER_LEN && msg[..HEADER_LEN] == HeaderBytes(h)
    ensures h.qdcount == |qs| && h.ancount == |an| && h.nscount == |ns| && h.arcount == |ar|
    ensures QuestionsAt(msg, HEADER_LEN, qs, p1) && RecordsAt(msg, p1, an, p2) && RecordsAt(msg, p2, ns, p3)
    ensures RecordsAt(msg, p3, ar, p4)
  {
    hide QuestionsAt;
    hide RecordsAt;
    hide ParseHeader;
    hide ParseQuestions;
    hide ParseSection;
    hide ParseAdditional;
    h := HeaderIsWritten(msg);
    HeaderReadsBack(msg, h);
    var q := ParseQuestions(msg, HEADER_LEN, h.qdcount);
    WalkStays(msg, HEADER_LEN, h.qdcount);
    qs := QuestionsAreWritten(msg, HEADER_LEN, h.qdcount);
    p1 := q.pos;
    var a := ParseSection(msg, p1, h.ancount);
    SectionStays(msg, p1, h.ancount);
    an := SectionIsWritten(msg, p1, h.ancount);
    p2 := a.pos;
    var n := ParseSection(msg, p2, h.nscount);
    SectionStays(msg, p2, h.nscount);
    ns := SectionIsWritten(msg, p2, h.nscount);
    p3 := n.pos;
    ar := AdditionalIsWritten(msg, p3, h.arcount, None);
    p4 := ParseAdditional(msg, p3, h.arcount, None).pos;
  }

  /** The walk over a section ends early only with a warning, or silently where a record's name cannot
      be passed. */
  lemma {:induction false} ShortSectionWarns(msg: seq<byte>, pos: nat, count: nat)
    requires pos <= |msg|
    ensures var r := ParseSection(msg, pos, count);
            |r.items| < count ==> r.warnings != [] || (r.pos < |msg| && Advance(msg, r.pos, 0) == 0)
    decreases count
  {
    hide RecordFrom;
    hide Decode;
    hide Advance;
    if count > 0 && pos < |msg| && ParseRr(msg, pos).RrParsed? {
      var p := ParseRr(msg, pos);
      if !p.h.overrun {
        ShortSectionWarns(msg, p.next, count - 1);
      }
    }
  }

  lemma TruncatedWarns(msg: seq<byte>, pos: nat)
    requires pos <= |msg|
    ensures var p := ParseQuestion(msg, pos);
            p.Truncated? ==> p.warnings != [] && p.warnings[|p.warnings| - 1] == QuestionTruncated
  {
    hide Decode;
    hide Advance;
  }

  lemma {:induction false} ShortQuestionsWarn(msg: seq<byte>, pos: nat, count: nat)
    requires pos <= |msg|
    ensures var r := ParseQuestions(msg, pos, count);
            |r.items| < count ==> r.warnings != []
                                  && r.warnings[|r.warnings| - 1] in {QuestionTruncated, SectionTruncated}
    decreases count
  {
    hide ParseQuestion;
    hide Decode;
    hide Advance;
    if count > 0 && pos < |msg| {
      TruncatedWarns(msg, pos);
      if ParseQuestion(msg, pos).Parsed? {
        ShortQuestionsWarn(msg, ParseQuestion(msg, pos).next, count - 1);
      }
    }
  }

  /** A response with one CNAME record of the root, whose data is a single length octet; the label and
      the final zero it needs stand behind the record. */
  const OUTRUN: seq<byte> := [0, 7, 0x80, 0, 0, 0, 0, 1, 0, 0, 0, 0,
                              0, 0, 5, 0, 1, 0, 0, 0, 0, 0, 1, 1,
                              97, 0]

  /** The parser reads the name beyond the record's data: the record is not malformed and nothing is
      warned about. */
  lemma {:induction false} NameMayOutrunData()
    ensures ParseMessage(OUTRUN).Some?
    ensures var (m, warnings) := ParseMessage(OUTRUN).value;
            m.answers == [Record([], TYPE_CNAME, 1, 0, [1], false)] && warnings == []
  {
    hide Decode;
    hide Advance;
    hide ParseMessage;
    hide HeaderBytes;
    hide NameAt;
    hide WellFormed;
    hide RecordAt;
    var r := RecordSpec([], TYPE_CNAME, 1, 0, [1], true);
    OutrunRecord();
    assert [r][1..] == [] && RecordsAt(OUTRUN, 24, [], 24);
    assert RecordsAt(OUTRUN, 12, [r], 24);
    var h := HeaderIsWritten(OUTRUN);
    HeaderReadsBack(OUTRUN, h);
    WrittenMessageParsesBack(OUTRUN, h, [], [r], [], [], 12, 24, 24, 24);
    assert RecordsOf([r]) == [RecordOf(r)] && NameField([]) == [];
  }

  lemma OutrunRecord()
    ensures RecordAt(OUTRUN, 12, RecordSpec([], TYPE_CNAME, 1, 0, [1], true), 24)
  {
    hide WellFormed;
    hide NameAt;
    RootAt(OUTRUN, 12);
    OutrunName();
    assert OUTRUN[23..24] == [1] && OUTRUN[13..23] == Two(5) + Two(1) + Four(0) + Two(1);
  }

  lemma RootAt(msg: seq<byte>, pos: nat)
    requires pos < |msg| && msg[pos] == 0
    ensures NameAt(msg, pos, [], pos + 1)
  {
    assert EncodedAt(msg, pos, [], 0);
  }

  lemma {:induction false} OutrunName()
    ensures WellFormed(OUTRUN, TYPE_CNAME, 23, 1)
  {
    assert EncodedAt(OUTRUN, 25, [], 0);
    assert EncodedAt(OUTRUN, 23, [[97]], 0) by {
      assert OUTRUN[24..25] == [97] && [[97 as byte]][1..] == [];
    }
    DecodesExactlyTheEncodedName(OUTRUN, 23, [[97]]);
    FineIffWellFormed(OUTRUN, TYPE_CNAME, 23, 1);
  }
}
