/** Log lines (cf_log.c): bounded JSON escaping and the assembly of one line. A char stands for one
    byte; strings are C strings, without NUL. */
module JsonLog {
  const LINE_MAX := 4096
  const FIELD_SCRATCH_MAX := 1024
  const KEY_SCRATCH_MAX := 256
  const SERVICE_MAX := 128

  /** What is left of the line once the tail "}\n" and the NUL have their room. */
  const CAP := LINE_MAX - 3

  datatype Level = Debug | Info | Warn | Error | Unknown

  /** A string pointer, which may be null. */
  datatype Text = Null | Text(chars: string)

  function CharsOf(t: Text): (s: string) {
    if t.Null? then "" else t.chars
  }

  // ---------------------------------------------------------------- escaping

  function HexDigit(d: nat): (c: char)
    requires d < 16
  {
    "0123456789abcdef"[d]
  }

  function Escape(c: char): (e: string)
    ensures 1 <= |e| <= 6
  {
    if c == '"' then "\\\""
    else if c == '\\' then "\\\\"
    else if c == '\n' then "\\n"
    else if c == '\r' then "\\r"
    else if c == '\t' then "\\t"
    else if c == 8 as char then "\\b"
    else if c == 12 as char then "\\f"
    else if c < ' ' then "\\u00" + [HexDigit(c as int / 16), HexDigit(c as int % 16)]
    else [c]
  }

  function EscapeAll(s: string): (e: string) {
    if s == "" then "" else EscapeAll(s[..|s| - 1]) + Escape(s[|s| - 1])
  }

  /** How many characters are escaped before one does not fit into cap bytes with a final NUL. */
  function Taken(s: string, cap: nat): (n: nat)
    ensures n <= |s|
  {
    if s == "" || |Escape(s[0])| + 1 > cap then 0 else 1 + Taken(s[1..], cap - |Escape(s[0])|)
  }

  /** What survives of a text in a buffer of cap bytes. */
  function Cut(t: Text, cap: nat): (s: string) {
    CharsOf(t)[..Taken(CharsOf(t), cap)]
  }

  lemma EscapeMore(s: string, c: char)
    ensures EscapeAll(s + [c]) == EscapeAll(s) + Escape(c)
  {
    assert (s + [c])[..|s|] == s;
  }

  lemma {:induction false} EscapeFirst(c: char, s: string)
    ensures EscapeAll([c] + s) == Escape(c) + EscapeAll(s)
  {
    hide Escape;
    if s == "" {
      EscapeMore("", c);
      assert [c] + s == "" + [c];
    } else {
      var n := |s| - 1;
      EscapeFirst(c, s[..n]);
      assert [c] + s == [c] + s[..n] + [s[n]];
      EscapeMore([c] + s[..n], s[n]);
    }
  }

  /** The cut is the longest that fits: it fits, and one character more does not. */
  lemma {:induction false} CutIsLongest(s: string, cap: nat)
    requires cap > 0
    ensures var n := Taken(s, cap);
            && |EscapeAll(s[..n])| + 1 <= cap
            && (n < |s| ==> |EscapeAll(s[..n + 1])| + 1 > cap)
  {
    hide Escape;
    hide EscapeAll;
    NothingEscaped();
    if s == "" {
      assert s[..0] == "";
    } else {
      var c, t := s[0], s[1..];
      EscapeFirst(c, "");
      assert [c] + "" == s[..1] && s[..0] == "";
      if |Escape(c)| + 1 <= cap {
        CutIsLongest(t, cap - |Escape(c)|);
        var n := Taken(t, cap - |Escape(c)|);
        PrefixMore(s, n);
        if n < |t| {
          PrefixMore(s, n + 1);
        }
      }
    }
  }

  lemma NothingEscaped()
    ensures EscapeAll("") == ""
  {
  }

  lemma PrefixMore(s: string, n: nat)
    requires n < |s|
    ensures EscapeAll(s[..n + 1]) == Escape(s[0]) + EscapeAll(s[1..][..n])
  {
    assert s[..n + 1] == [s[0]] + s[1..][..n];
    EscapeFirst(s[0], s[1..][..n]);
  }

  /** Everything that fits survives whole. */
  lemma {:induction false} ShortIsUncut(s: string, cap: nat)
    requires |EscapeAll(s)| + 1 <= cap
    ensures Taken(s, cap) == |s|
  {
    CutIsLongest(s, cap);
    var n := Taken(s, cap);
    if n < |s| {
      EscapeGrows(s, n + 1);
    }
  }

  lemma {:induction false} EscapeGrows(s: string, n: nat)
    requires n <= |s|
    ensures |EscapeAll(s[..n])| <= |EscapeAll(s)| <= 6 * |s|
  {
    if n == |s| {
      assert s[..n] == s;
      if s != "" {
        EscapeGrows(s[..|s| - 1], 0);
      }
    } else {
      assert s[..|s| - 1][..n] == s[..n];
      EscapeGrows(s[..|s| - 1], n);
    }
  }

  /** cf_log_json_escape: the buffer holds the escaped cut and a NUL, the result is its length. */
  method JsonEscape(dst: array<char>, cap: nat, src: Text) returns (len: nat)
    requires cap <= dst.Length
    modifies dst
    ensures cap == 0 ==> len == 0 && dst[..] == old(dst[..])
    ensures cap > 0 ==> len < cap && dst[..len] == EscapeAll(Cut(src, cap)) && dst[len] == '\0'
    ensures dst[cap..] == old(dst[cap..])
  {
    hide Escape;
    hide EscapeAll;
    hide Taken;
    var s := CharsOf(src);
    len := 0;
    if cap == 0 {
      return;
    }
    var i := 0;
    NothingEscaped();
    assert s[i..] == s && s[..i] == "";
    while i < |s|
      invariant 0 <= i <= |s| && len < cap
      invariant dst[..len] == EscapeAll(s[..i])
      invariant Taken(s, cap) == i + Taken(s[i..], cap - len)
      invariant dst[cap..] == old(dst[cap..])
    {
      var esc := Escape(s[i]);
      TakeOne(s, i, cap - len);
      if len + |esc| + 1 > cap {
        break;
      }
      CopyAt(dst, len, esc);
      len := len + |esc|;
      i := i + 1;
    }
    if i == |s| {
      TakeNone(cap - len);
    }
    dst[len] := '\0';
  }

  lemma TakeNone(room: nat)
    ensures Taken("", room) == 0
  {
  }

  lemma TakeOne(s: string, i: nat, room: nat)
    requires i < |s|
    ensures var e := Escape(s[i]);
            && Taken(s[i..], room) == (if |e| + 1 > room then 0 else 1 + Taken(s[i + 1..], room - |e|))
            && EscapeAll(s[..i + 1]) == EscapeAll(s[..i]) + e
  {
    hide Escape;
    EscapeMore(s[..i], s[i]);
    assert s[..i + 1] == s[..i] + [s[i]] && s[i..][1..] == s[i + 1..];
  }

  /** memcpy. */
  method CopyAt(dst: array<char>, at: nat, src: string)
    requires at + |src| <= dst.Length
    modifies dst
    ensures dst[..] == old(dst[..at]) + src + old(dst[at + |src|..])
  {
    forall k | 0 <= k < |src| {
      dst[at + k] := src[k];
    }
  }

  // ---------------------------------------------------------------- reading a line back

  datatype Scan = Bad | Scanned(value: string, rest: string)

  function HexValue(c: char): (v: int)
    ensures -1 <= v < 16
  {
    if '0' <= c <= '9' then c as int - '0' as int
    else if 'a' <= c <= 'f' then c as int - 'a' as int + 10
    else if 'A' <= c <= 'F' then c as int - 'A' as int + 10
    else -1
  }

  /** One character of a JSON string (section 7 of RFC 8259) and how many bytes it takes, 0 when there
      is none. Of the \u escapes it reads those below 80 hexadecimal, which are one byte of UTF-8. */
  function ScanChar(s: string): (r: (char, nat))
    ensures r.1 <= |s|
  {
    if s == "" || s[0] == '"' || s[0] < ' ' then ('\0', 0)
    else if s[0] != '\\' then (s[0], 1)
    else if |s| < 2 then ('\0', 0)
    else match s[1]
      case '"' => ('"', 2)
      case '\\' => ('\\', 2)
      case '/' => ('/', 2)
      case 'b' => (8 as char, 2)
      case 'f' => (12 as char, 2)
      case 'n' => ('\n', 2)
      case 'r' => ('\r', 2)
      case 't' => ('\t', 2)
      case 'u' =>
        if |s| >= 6 && s[2] == '0' && s[3] == '0' && 0 <= HexValue(s[4]) < 8 && HexValue(s[5]) >= 0
        then ((16 * HexValue(s[4]) + HexValue(s[5])) as char, 6) else ('\0', 0)
      case _ => ('\0', 0)
  }

  /** The rest of a string, up to and with its closing quote. */
  function ScanString(s: string): (r: Scan)
    decreases |s|
  {
    if s == "" then Bad
    else if s[0] == '"' then Scanned("", s[1..])
    else
      var (c, n) := ScanChar(s);
      if n == 0 then Bad
      else
        match ScanString(s[n..])
        case Bad => Bad
        case Scanned(v, rest) => Scanned([c] + v, rest)
  }

  /** An escaped character reads back as itself. */
  lemma CharScansBack(c: char, rest: string)
    ensures ScanChar(Escape(c) + rest) == (c, |Escape(c)|) && (Escape(c) + rest)[|Escape(c)|..] == rest
    ensures (Escape(c) + rest)[0] != '"'
  {
    if c < ' ' && c != '\n' && c != '\r' && c != '\t' && c != 8 as char && c != 12 as char {
      var h, l := c as int / 16, c as int % 16;
      var s := Escape(c) + rest;
      assert s[4] == HexDigit(h) && s[5] == HexDigit(l);
      HexReadsBack(h);
      HexReadsBack(l);
    }
  }

  lemma HexReadsBack(d: nat)
    requires d < 16
    ensures HexValue(HexDigit(d)) == d
  {
  }

  /** Unescaping an escaped string gives back the string. */
  lemma {:induction false} StringScansBack(s: string, rest: string)
    ensures ScanString(EscapeAll(s) + "\"" + rest) == Scanned(s, rest)
  {
    hide Escape;
    hide ScanChar;
    if s == "" {
      assert ("" + "\"" + rest)[1..] == rest;
    } else {
      var c, t := s[0], s[1..];
      assert s == [c] + t;
      EscapeFirst(c, t);
      var tail := EscapeAll(t) + "\"" + rest;
      assert EscapeAll(s) + "\"" + rest == Escape(c) + tail;
      CharScansBack(c, tail);
      StringScansBack(t, rest);
    }
  }

  type Member = (string, string)

  datatype Object = NotAnObject | Object(members: seq<Member>)

  datatype MemberScan = NoMember | ScannedMember(member: Member, rest: string)

  /** A name, a colon and a string. */
  function ScanMember(s: string): (r: MemberScan)
    ensures r.ScannedMember? ==> |r.rest| < |s|
  {
    if s == "" || s[0] != '"' then NoMember
    else
      match ScanString(s[1..])
      case Bad => NoMember
      case Scanned(k, rest) =>
        ScanShrinks(s[1..]);
        if |rest| < 2 || rest[0] != ':' || rest[1] != '"' then NoMember
        else
          ScanShrinks(rest[2..]);
          match ScanString(rest[2..])
          case Bad => NoMember
          case Scanned(v, rest') => ScannedMember((k, v), rest')
  }

  lemma {:induction false} ScanShrinks(s: string)
    ensures ScanString(s).Scanned? ==> |ScanString(s).rest| < |s|
    decreases |s|
  {
    if s != "" && s[0] != '"' {
      var (c, n) := ScanChar(s);
      if n > 0 {
        ScanShrinks(s[n..]);
      }
    }
  }

  /** The members after the first, and the end of the line. */
  function ParseMore(s: string): (r: Object)
    decreases |s|
  {
    if s == "}\n" then Object([])
    else if s == "" || s[0] != ',' then NotAnObject
    else
      match ScanMember(s[1..])
      case NoMember => NotAnObject
      case ScannedMember(m, rest) =>
        match ParseMore(rest)
        case NotAnObject => NotAnObject
        case Object(ms) => Object([m] + ms)
  }

  /** A line that is one JSON object with string members, and a newline. */
  function ParseLine(s: string): (r: Object) {
    if s == "" || s[0] != '{' then NotAnObject
    else
      match ScanMember(s[1..])
      case NoMember => NotAnObject
      case ScannedMember(m, rest) =>
        match ParseMore(rest)
        case NotAnObject => NotAnObject
        case Object(ms) => Object([m] + ms)
  }

  function MemberText(m: Member): (s: string) {
    "\"" + EscapeAll(m.0) + "\":\"" + EscapeAll(m.1) + "\""
  }

  /** The line of an object, up to its tail. */
  function OpenText(ms: seq<Member>): (s: string)
    requires ms != []
  {
    if |ms| == 1 then "{" + MemberText(ms[0]) else OpenText(ms[..|ms| - 1]) + "," + MemberText(ms[|ms| - 1])
  }

  function LineText(ms: seq<Member>): (s: string)
    requires ms != []
  {
    OpenText(ms) + "}\n"
  }

  lemma MemberScansBack(m: Member, rest: string)
    ensures ScanMember(MemberText(m) + rest) == ScannedMember(m, rest)
  {
    hide EscapeAll;
    hide ScanString;
    var s := MemberText(m) + rest;
    var second := EscapeAll(m.1) + "\"" + rest;
    assert s[1..] == EscapeAll(m.0) + "\"" + (":\"" + second);
    StringScansBack(m.0, ":\"" + second);
    assert (":\"" + second)[2..] == second;
    StringScansBack(m.1, rest);
  }

  function MoreText(ms: seq<Member>): (s: string) {
    if ms == [] then "}\n" else "," + MemberText(ms[0]) + MoreText(ms[1..])
  }

  lemma {:induction false} MoreParsesBack(ms: seq<Member>)
    ensures ParseMore(MoreText(ms)) == Object(ms)
  {
    hide MemberText;
    hide ScanMember;
    if ms != [] {
      var s := MoreText(ms);
      assert s[1..] == MemberText(ms[0]) + MoreText(ms[1..]);
      MemberScansBack(ms[0], MoreText(ms[1..]));
      MoreParsesBack(ms[1..]);
    }
  }

  lemma {:induction false} OpenThenMore(ms: seq<Member>, more: seq<Member>)
    requires ms != []
    ensures OpenText(ms) + MoreText(more) == "{" + MemberText(ms[0]) + MoreText(ms[1..] + more)
  {
    hide MemberText;
    if |ms| == 1 {
      assert ms[1..] + more == more;
    } else {
      var n := |ms| - 1;
      OpenThenMore(ms[..n], [ms[n]] + more);
      assert ms[..n][1..] + ([ms[n]] + more) == ms[1..] + more;
      assert ([ms[n]] + more)[1..] == more;
      assert OpenText(ms) + MoreText(more) == OpenText(ms[..n]) + MoreText([ms[n]] + more);
    }
  }

  /** The line of any list of members is one well-formed object, and reads back as that list. */
  lemma LineParsesBack(ms: seq<Member>)
    requires ms != []
    ensures ParseLine(LineText(ms)) == Object(ms)
  {
    hide MemberText;
    hide ScanMember;
    OpenThenMore(ms, []);
    assert ms[1..] + [] == ms[1..];
    var s := LineText(ms);
    assert s[1..] == MemberText(ms[0]) + MoreText(ms[1..]);
    MemberScansBack(ms[0], MoreText(ms[1..]));
    MoreParsesBack(ms[1..]);
    assert [ms[0]] + ms[1..] == ms;
  }

  // ---------------------------------------------------------------- assembling a line

  /** Nothing in the text needs escaping. */
  predicate Plain(s: string) {
    forall i :: 0 <= i < |s| ==> s[i] >= ' ' && s[i] != '"' && s[i] != '\\'
  }

  lemma {:induction false} PlainIsItself(s: string)
    requires Plain(s)
    ensures EscapeAll(s) == s
  {
    hide Escape;
    if s != "" {
      var n := |s| - 1;
      PlainIsItself(s[..n]);
      PlainChar(s[n]);
      assert s == s[..n] + [s[n]];
    }
  }

  lemma PlainChar(c: char)
    requires c >= ' ' && c != '"' && c != '\\'
    ensures Escape(c) == [c]
  {
  }

  function LevelName(l: Level): (s: string)
    ensures |s| <= 7 && Plain(s)
  {
    match l
    case Debug => "debug"
    case Info => "info"
    case Warn => "warn"
    case Error => "error"
    case Unknown => "unknown"
  }

  lemma LevelsByName()
    ensures LevelName(Debug) == "debug" && LevelName(Info) == "info" && LevelName(Warn) == "warn" && LevelName(Error) == "error"
  {
  }

  /** cf_log_init: the name is kept in a buffer of its own. */
  function ServiceName(name: Text): (s: string)
    ensures |s| < SERVICE_MAX
  {
    var n := if name.Null? then "cloudflow" else name.chars;
    if |n| < SERVICE_MAX then n else n[..SERVICE_MAX - 1]
  }

  function PairMember(pair: (string, Text)): (m: Member) {
    (Cut(Text(pair.0), KEY_SCRATCH_MAX), Cut(pair.1, FIELD_SCRATCH_MAX))
  }

  /** The pairs in order, up to the first that does not fit. */
  function AddPairs(ms: seq<Member>, pairs: seq<(string, Text)>): (r: seq<Member>)
    requires ms != []
    ensures ms <= r
    decreases |pairs|
  {
    if pairs == [] then ms
    else
      var more := ms + [PairMember(pairs[0])];
      if |OpenText(more)| <= CAP then AddPairs(more, pairs[1..]) else ms
  }

  function FirstMembers(ts: string, level: Level, service: string, msg: Text): (ms: seq<Member>)
    ensures |ms| == 4
  {
    [("ts", ts), ("level", LevelName(level)), ("service", service), ("msg", Cut(msg, FIELD_SCRATCH_MAX))]
  }

  function Members(ts: string, level: Level, service: string, msg: Text, pairs: seq<(string, Text)>): (ms: seq<Member>)
    ensures ms != []
  {
    AddPairs(FirstMembers(ts, level, service, msg), pairs)
  }

  lemma OpenMore(ms: seq<Member>, m: Member)
    requires ms != []
    ensures OpenText(ms + [m]) == OpenText(ms) + "," + MemberText(m)
  {
    assert (ms + [m])[..|ms|] == ms;
  }

  /** cf_log_append_field: the whole field or nothing. */
  method AppendField(line: array<char>, cap: nat, len: nat, prefix: string, raw: Text, scratch: array<char>)
    returns (ok: bool, len': nat)
    requires line != scratch && len <= cap <= line.Length && scratch.Length > 0
    modifies line, scratch
    ensures ok <==> len + |prefix| + |EscapeAll(Cut(raw, scratch.Length))| + 1 <= cap
    ensures ok ==> len' <= cap && line[..len'] == old(line[..len]) + prefix + EscapeAll(Cut(raw, scratch.Length)) + "\""
    ensures !ok ==> len' == len && line[..] == old(line[..])
  {
    hide EscapeAll;
    hide Cut;
    var vlen := JsonEscape(scratch, scratch.Length, raw);
    if len + |prefix| + vlen + 1 > cap {
      return false, len;
    }
    CopyAt(line, len, prefix);
    CopyAt(line, len + |prefix|, scratch[..vlen]);
    line[len + |prefix| + vlen] := '"';
    return true, len + |prefix| + vlen + 1;
  }

  /** The fixed beginning of the line, up to the value of the service. */
  function HeaderText(ts: string, level: Level): (s: string) {
    "{\"ts\":\"" + ts + "\",\"level\":\"" + LevelName(level) + "\",\"service\":\""
  }

  lemma PlainMember(k: string, v: string)
    requires Plain(k) && Plain(v)
    ensures MemberText((k, v)) == "\"" + k + "\":\"" + v + "\""
  {
    PlainIsItself(k);
    PlainIsItself(v);
  }

  lemma HeaderOpens(ts: string, level: Level, service: string)
    requires Plain(ts)
    ensures OpenText([("ts", ts), ("level", LevelName(level)), ("service", service)])
            == HeaderText(ts, level) + EscapeAll(service) + "\""
  {
    hide EscapeAll;
    hide LevelName;
    hide MemberText;
    var m1, m2, m3 := ("ts", ts), ("level", LevelName(level)), ("service", service);
    assert [m1, m2] == [m1] + [m2] && [m1, m2, m3] == [m1, m2] + [m3];
    PlainMember("ts", ts);
    PlainMember("level", LevelName(level));
    OpenMore([m1], m2);
    PlainIsItself("service");
    OpenByPrefix([m1, m2], "service", service);
    Literals(ts, LevelName(level));
  }

  lemma Literals(ts: string, name: string)
    ensures "{" + ("\"" + "ts" + "\":\"" + ts + "\"") + "," + ("\"" + "level" + "\":\"" + name + "\"") + (",\"" + "service" + "\":\"")
            == "{\"ts\":\"" + ts + "\",\"level\":\"" + name + "\",\"service\":\""
  {
    assert "{" + ("\"" + "ts" + "\":\"") == "{\"ts\":\"";
    assert "\"" + "," + ("\"" + "level" + "\":\"") == "\",\"level\":\"";
    assert "\"" + (",\"" + "service" + "\":\"") == "\",\"service\":\"";
  }

  /** One more member, as a prefix and a value. */
  lemma OpenByPrefix(ms: seq<Member>, k: string, v: string)
    requires ms != []
    ensures OpenText(ms + [(k, v)]) == OpenText(ms) + (",\"" + EscapeAll(k) + "\":\"") + EscapeAll(v) + "\""
  {
    hide EscapeAll;
    OpenMore(ms, (k, v));
  }

  /** The loop over the key and value pairs of cf_log. */
  method AppendPairs(line: array<char>, len: nat, scratch: array<char>, pairs: seq<(string, Text)>, ghost ms: seq<Member>)
    returns (len': nat)
    requires line != scratch && line.Length == LINE_MAX && scratch.Length == FIELD_SCRATCH_MAX
    requires ms != [] && len <= CAP && line[..len] == OpenText(ms)
    modifies line, scratch
    ensures len' <= CAP && line[..len'] == OpenText(AddPairs(ms, pairs))
  {
    hide EscapeAll;
    hide OpenText;
    hide Cut;
    var keyScratch := new char[KEY_SCRATCH_MAX];
    len' := len;
    ghost var now := ms;
    var i := 0;
    assert pairs[i..] == pairs;
    while i < |pairs|
      invariant 0 <= i <= |pairs| && now != [] && len' <= CAP && line[..len'] == OpenText(now)
      invariant AddPairs(now, pairs[i..]) == AddPairs(ms, pairs)
    {
      var (key, value) := pairs[i];
      var klen := JsonEscape(keyScratch, KEY_SCRATCH_MAX, Text(key));
      var prefix := ",\"" + keyScratch[..klen] + "\":\"";
      assert |prefix| < KEY_SCRATCH_MAX + 8;
      ghost var m := PairMember(pairs[i]);
      OpenByPrefix(now, m.0, m.1);
      assert pairs[i..][0] == pairs[i] && pairs[i..][1..] == pairs[i + 1..];
      var ok;
      ok, len' := AppendField(line, CAP, len', prefix, value, scratch);
      if !ok {
        return;
      }
      now := now + [m];
      i := i + 1;
    }
  }

  lemma CutFits(t: Text, cap: nat)
    requires cap > 0
    ensures |EscapeAll(Cut(t, cap))| < cap
  {
    CutIsLongest(CharsOf(t), cap);
  }

  lemma ServiceIsWhole(service: string)
    requires |service| < SERVICE_MAX
    ensures Cut(Text(service), FIELD_SCRATCH_MAX) == service && |EscapeAll(service)| <= 6 * SERVICE_MAX
  {
    EscapeGrows(service, 0);
    ShortIsUncut(service, FIELD_SCRATCH_MAX);
  }

  /** The beginning of cf_log: header, service and message always fit. */
  method Start(line: array<char>, scratch: array<char>, ts: string, level: Level, service: string, msg: Text)
    returns (len: nat)
    requires line != scratch && line.Length == LINE_MAX && scratch.Length == FIELD_SCRATCH_MAX
    requires Plain(ts) && |ts| < 80 && |service| < SERVICE_MAX
    modifies line, scratch
    ensures len <= CAP && line[..len] == OpenText(FirstMembers(ts, level, service, msg))
  {
    hide EscapeAll;
    hide OpenText;
    hide Cut;
    hide HeaderText;
    var header := HeaderText(ts, level);
    HeaderIsShort(ts, level);
    CopyAt(line, 0, header);
    len := |header|;   // the clamp of the source never applies
    assert len <= CAP;
    HeaderOpens(ts, level, service);
    ServiceIsWhole(service);
    CutFits(msg, FIELD_SCRATCH_MAX);
    var ok;
    ok, len := AppendField(line, CAP, len, "", Text(service), scratch);
    ghost var ms := [("ts", ts), ("level", LevelName(level)), ("service", service)];
    assert header + "" == header;
    assert line[..len] == OpenText(ms);
    MessageMember(ms, msg);
    ok, len := AppendField(line, CAP, len, ",\"msg\":\"", msg, scratch);
    assert ms + [("msg", Cut(msg, FIELD_SCRATCH_MAX))] == FirstMembers(ts, level, service, msg);
  }

  lemma HeaderIsShort(ts: string, level: Level)
    requires |ts| < 80
    ensures |HeaderText(ts, level)| <= 117
  {
  }

  lemma MessageMember(ms: seq<Member>, msg: Text)
    requires ms != []
    ensures OpenText(ms + [("msg", Cut(msg, FIELD_SCRATCH_MAX))])
            == OpenText(ms) + ",\"msg\":\"" + EscapeAll(Cut(msg, FIELD_SCRATCH_MAX)) + "\""
  {
    hide EscapeAll;
    hide Cut;
    PlainIsItself("msg");
    OpenByPrefix(ms, "msg", Cut(msg, FIELD_SCRATCH_MAX));
    assert ",\"" + "msg" + "\":\"" == ",\"msg\":\"";
  }

  /** cf_log. The line is one object with all of ts, level, service and msg and as many pairs as fit,
      and it leaves room for its NUL. */
  method Log(ts: string, level: Level, service: string, msg: Text, pairs: seq<(string, Text)>) returns (out: string)
    requires Plain(ts) && |ts| < 80 && |service| < SERVICE_MAX
    ensures |out| < 4096 && out == LineText(Members(ts, level, service, msg, pairs))
    ensures ParseLine(out) == Object(Members(ts, level, service, msg, pairs))
  {
    hide EscapeAll;
    hide OpenText;
    hide FirstMembers;
    hide AddPairs;
    hide ParseLine;
    var line, scratch := new char[LINE_MAX], new char[FIELD_SCRATCH_MAX];
    var len := Start(line, scratch, ts, level, service, msg);
    ghost var first := FirstMembers(ts, level, service, msg);
    len := AppendPairs(line, len, scratch, pairs, first);
    line[len] := '}';
    line[len + 1] := '\n';
    line[len + 2] := '\0';
    out := line[..len + 2];
    LineParsesBack(Members(ts, level, service, msg, pairs));
  }
}
