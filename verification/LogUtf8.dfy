/** When a log line stays valid UTF-8 (section 8.1 of RFC 8259): the escaper cuts between bytes. */
module LogUtf8 {
  import opened JsonLog

  // ---------------------------------------------------------------- UTF-8 (section 4 of RFC 3629)

  predicate Continuation(c: char) {
    0x80 <= c as int < 0xC0
  }

  /** How many continuation bytes a leading byte asks for, 0 when it cannot lead a longer sequence. */
  function Wanted(c: char): (n: nat) {
    var b := c as int;
    if 0xC2 <= b < 0xE0 then 1 else if 0xE0 <= b < 0xF0 then 2 else if 0xF0 <= b < 0xF5 then 3 else 0
  }

  /** The first continuation byte rules out overlong forms, surrogates and what lies beyond 10FFFF. */
  predicate Follows(lead: char, c: char) {
    var b := c as int;
    match lead as int
    case 0xE0 => 0xA0 <= b < 0xC0
    case 0xED => 0x80 <= b < 0xA0
    case 0xF0 => 0x90 <= b < 0xC0
    case 0xF4 => 0x80 <= b < 0x90
    case _ => 0x80 <= b < 0xC0
  }

  predicate Continued(s: string, n: nat) {
    n == 0 || (s != "" && Continuation(s[0]) && Continued(s[1..], n - 1))
  }

  /** The length of the character the text starts with, 0 when it does not start with one. */
  function CharLength(s: string): (n: nat)
    ensures n > 0 ==> s != "" && !Continuation(s[0])
  {
    if s == "" then 0
    else if s[0] as int < 0x80 then 1
    else if Wanted(s[0]) > 0 && Continued(s[1..], Wanted(s[0])) && Follows(s[0], s[1]) then 1 + Wanted(s[0])
    else 0
  }

  lemma {:induction false} ContinuedIsLong(s: string, n: nat)
    requires Continued(s, n)
    ensures |s| >= n && forall i :: 0 <= i < n ==> Continuation(s[i])
  {
    if n > 0 {
      ContinuedIsLong(s[1..], n - 1);
      forall i | 0 <= i < n ensures Continuation(s[i]) {
        assert i > 0 ==> s[i] == s[1..][i - 1];
      }
    }
  }

  lemma CharIsThere(s: string)
    ensures var n := CharLength(s); n <= |s| && n <= 4 && forall i :: 1 <= i < n ==> Continuation(s[i])
  {
    if CharLength(s) > 1 {
      ContinuedIsLong(s[1..], Wanted(s[0]));
      forall i | 1 <= i < CharLength(s) ensures Continuation(s[i]) {
        assert s[i] == s[1..][i - 1];
      }
    }
  }

  ghost predicate Utf8(s: string)
    decreases |s|
  {
    s == "" || (0 < CharLength(s) <= |s| && Utf8(s[CharLength(s)..]))
  }

  // ---------------------------------------------------------------- escaping neither makes nor breaks it

  predicate Ascii(s: string) {
    forall i :: 0 <= i < |s| ==> s[i] as int < 0x80
  }

  lemma EscapeIsAscii(c: char)
    ensures if c as int < 0x80 then Ascii(Escape(c)) else Escape(c) == [c]
  {
  }

  lemma {:induction false} AsciiInFront(a: string, s: string)
    requires Ascii(a)
    ensures Utf8(a + s) <==> Utf8(s)
    decreases |a|
  {
    if a == "" {
      assert a + s == s;
    } else {
      assert (a + s)[1..] == a[1..] + s;
      AsciiInFront(a[1..], s);
    }
  }

  lemma EscapeSplits(s: string)
    requires s != ""
    ensures EscapeAll(s) == Escape(s[0]) + EscapeAll(s[1..])
  {
    assert s == [s[0]] + s[1..];
    EscapeFirst(s[0], s[1..]);
  }

  lemma {:induction false} EscapeKeepsContinued(s: string, n: nat)
    ensures Continued(EscapeAll(s), n) <==> Continued(s, n)
    ensures Continued(s, n) ==> |s| >= n && EscapeAll(s) == s[..n] + EscapeAll(s[n..])
    decreases n
  {
    hide Escape;
    hide EscapeAll;
    NothingEscaped();
    if n == 0 {
      assert s[..0] == "" && s[0..] == s && "" + EscapeAll(s) == EscapeAll(s);
    } else if s != "" {
      EscapeSplits(s);
      EscapeIsAscii(s[0]);
      EscapeKeepsContinued(s[1..], n - 1);
      var e := EscapeAll(s);
      if s[0] as int < 0x80 {
        assert e[0] == Escape(s[0])[0];
      } else {
        assert e[0] == s[0] && e[1..] == EscapeAll(s[1..]);
        if Continued(s, n) {
          assert s[1..][n - 1..] == s[n..] && [s[0]] + s[1..][..n - 1] == s[..n];
        }
      }
    }
  }

  /** Escaped text is valid UTF-8 exactly when the text is. */
  lemma {:induction false} EscapedIsUtf8Iff(s: string)
    ensures Utf8(EscapeAll(s)) <==> Utf8(s)
    decreases |s|
  {
    hide Escape;
    hide Continued;
    if s != "" {
      EscapeSplits(s);
      EscapeIsAscii(s[0]);
      var e, n := EscapeAll(s), Wanted(s[0]);
      if s[0] as int < 0x80 {
        EscapedIsUtf8Iff(s[1..]);
        AsciiInFront(Escape(s[0]), EscapeAll(s[1..]));
      } else {
        assert e[0] == s[0] && e[1..] == EscapeAll(s[1..]);
        EscapeKeepsContinued(s[1..], n);
        CharIsThere(s);
        CharIsThere(e);
        if n > 0 && Continued(s[1..], n) {
          assert e[1] == s[1..][..n][0] == s[1];
          assert e[1 + n..] == e[1..][n..] == EscapeAll(s[1..][n..]) && s[1..][n..] == s[1 + n..];
          EscapedIsUtf8Iff(s[1 + n..]);
        }
      }
    }
  }

  // ---------------------------------------------------------------- cutting

  lemma {:induction false} CutShort(s: string, n: nat, m: nat)
    requires n < m && Continued(s, m)
    ensures |s| >= m && !Continued(s[..n], m)
  {
    ContinuedIsLong(s, m);
    if Continued(s[..n], m) {
      ContinuedIsLong(s[..n], m);
    }
  }

  lemma {:induction false} CutBehind(s: string, n: nat, m: nat)
    requires m <= n <= |s| && Continued(s, m)
    ensures Continued(s[..n], m)
    decreases m
  {
    if m > 0 {
      assert s[..n][1..] == s[1..][..n - 1];
      CutBehind(s[1..], n - 1, m - 1);
    }
  }

  lemma FirstCharCut(s: string, n: nat)
    requires 0 < CharLength(s) && 0 < n <= |s|
    ensures CharLength(s[..n]) == if n < CharLength(s) then 0 else CharLength(s)
  {
    var w := Wanted(s[0]);
    assert s[..n][1..] == s[1..][..n - 1];
    if s[0] as int >= 0x80 {
      if n - 1 < w {
        CutShort(s[1..], n - 1, w);
      } else {
        CutBehind(s[1..], n - 1, w);
      }
    }
  }

  /** A prefix of valid text is valid exactly when the byte behind it does not continue a character. */
  lemma {:induction false} PrefixIsUtf8Iff(s: string, n: nat)
    requires Utf8(s) && n <= |s|
    ensures Utf8(s[..n]) <==> n == |s| || !Continuation(s[n])
    decreases |s|
  {
    hide CharLength;
    if n == |s| {
      assert s[..n] == s;
    } else if n == 0 {
      assert s[..0] == "";
    } else {
      var k := CharLength(s);
      FirstCharCut(s, n);
      CharIsThere(s);
      if k <= n {
        assert s[..n][k..] == s[k..][..n - k];
        assert s[k..][n - k] == s[n];
        PrefixIsUtf8Iff(s[k..], n - k);
      }
    }
  }

  /** The buffer takes the whole text, or the first byte it leaves out does not continue a character. */
  predicate CutsClean(s: string, cap: nat) {
    Taken(s, cap) == |s| || !Continuation(s[Taken(s, cap)])
  }

  lemma CutIsUtf8Iff(s: string, cap: nat)
    requires Utf8(s)
    ensures Utf8(s[..Taken(s, cap)]) <==> CutsClean(s, cap)
  {
    PrefixIsUtf8Iff(s, Taken(s, cap));
  }

  /** What the escaper leaves of a valid text in a buffer is valid exactly when it cuts no character. */
  lemma EscapedCutIsUtf8Iff(s: string, cap: nat)
    requires Utf8(s)
    ensures Utf8(EscapeAll(Cut(Text(s), cap))) <==> CutsClean(s, cap)
  {
    EscapedIsUtf8Iff(s[..Taken(s, cap)]);
    CutIsUtf8Iff(s, cap);
  }

  /** The stored service name is cut at 127 bytes. */
  lemma ServiceNameIsUtf8Iff(s: string)
    requires Utf8(s)
    ensures Utf8(ServiceName(Text(s))) <==> |s| < SERVICE_MAX || !Continuation(s[SERVICE_MAX - 1])
  {
    if |s| >= SERVICE_MAX {
      PrefixIsUtf8Iff(s, SERVICE_MAX - 1);
    }
  }

  // ---------------------------------------------------------------- a whole line

  lemma {:induction false} ContinuedBefore(x: string, t: string, n: nat)
    requires t != "" && t[0] as int < 0x80
    ensures Continued(x + t, n) <==> Continued(x, n)
    decreases n
  {
    if x == "" {
      assert x + t == t;
    } else if n > 0 {
      assert (x + t)[1..] == x[1..] + t;
      ContinuedBefore(x[1..], t, n - 1);
    }
  }

  lemma FirstCharBefore(x: string, t: string)
    requires x != "" && t != "" && t[0] as int < 0x80
    ensures CharLength(x + t) == CharLength(x)
  {
    hide Continued;
    assert (x + t)[1..] == x[1..] + t;
    ContinuedBefore(x[1..], t, Wanted(x[0]));
    CharIsThere(x);
    CharIsThere(x + t);
    if Wanted(x[0]) > 0 && Continued(x[1..], Wanted(x[0])) {
      ContinuedIsLong(x[1..], Wanted(x[0]));
      assert (x + t)[1] == x[1];
    }
  }

  /** ASCII keeps two texts apart: together they are valid exactly when each is. */
  lemma {:induction false} AsciiBetween(x: string, a: string, y: string)
    requires Ascii(a) && a != ""
    ensures Utf8(x + a + y) <==> Utf8(x) && Utf8(y)
    decreases |x|
  {
    hide CharLength;
    var t := a + y;
    assert x + a + y == x + t;
    if x == "" {
      assert x + t == t;
      AsciiInFront(a, y);
    } else {
      FirstCharBefore(x, t);
      CharIsThere(x);
      var k := CharLength(x);
      if k > 0 {
        assert (x + t)[k..] == x[k..] + t == x[k..] + a + y;
        AsciiBetween(x[k..], a, y);
      }
    }
  }

  ghost predicate ValidMember(m: Member) {
    Utf8(m.0) && Utf8(m.1)
  }

  lemma MemberIsUtf8Iff(m: Member, rest: string)
    ensures Utf8(MemberText(m) + rest) <==> ValidMember(m) && Utf8(rest)
  {
    hide EscapeAll;
    hide Utf8;
    var k, v := EscapeAll(m.0), EscapeAll(m.1);
    var tail := v + "\"" + rest;
    assert MemberText(m) + rest == "\"" + (k + "\":\"" + tail);
    AsciiInFront("\"", k + "\":\"" + tail);
    AsciiBetween(k, "\":\"", tail);
    AsciiBetween(v, "\"", rest);
    EscapedIsUtf8Iff(m.0);
    EscapedIsUtf8Iff(m.1);
  }

  ghost predicate ValidMembers(ms: seq<Member>) {
    forall i :: 0 <= i < |ms| ==> ValidMember(ms[i])
  }

  lemma {:induction false} MoreIsUtf8Iff(ms: seq<Member>)
    ensures Utf8(MoreText(ms)) <==> ValidMembers(ms)
  {
    hide ValidMember;
    hide MemberText;
    if ms == [] {
      AsciiInFront("}\n", "");
      assert "}\n" + "" == "}\n";
    } else {
      var rest := MoreText(ms[1..]);
      assert MoreText(ms) == "," + (MemberText(ms[0]) + rest);
      AsciiInFront(",", MemberText(ms[0]) + rest);
      MemberIsUtf8Iff(ms[0], rest);
      MoreIsUtf8Iff(ms[1..]);
      FirstValid(ms);
    }
  }

  lemma FirstValid(ms: seq<Member>)
    requires ms != []
    ensures ValidMembers(ms) <==> ValidMember(ms[0]) && ValidMembers(ms[1..])
  {
    hide ValidMember;
    if ValidMember(ms[0]) && ValidMembers(ms[1..]) {
      assert forall i :: 1 <= i < |ms| ==> ms[i] == ms[1..][i - 1];
    }
  }

  /** The line of any members is valid UTF-8 exactly when every name and value in it is. */
  lemma LineIsUtf8Iff(ms: seq<Member>)
    requires ms != []
    ensures Utf8(LineText(ms)) <==> ValidMembers(ms)
  {
    hide ValidMember;
    hide MemberText;
    hide OpenText;
    OpenThenMore(ms, []);
    var rest := MoreText(ms[1..]);
    assert ms[1..] + [] == ms[1..];
    assert LineText(ms) == "{" + (MemberText(ms[0]) + rest);
    AsciiInFront("{", MemberText(ms[0]) + rest);
    MemberIsUtf8Iff(ms[0], rest);
    MoreIsUtf8Iff(ms[1..]);
    FirstValid(ms);
  }

  /** The members behind the first four are the first pairs, cut. */
  lemma {:induction false} AddedPairs(ms: seq<Member>, pairs: seq<(string, JsonLog.Text)>)
    requires ms != []
    ensures var r := AddPairs(ms, pairs);
            && |ms| <= |r| <= |ms| + |pairs| && ms == r[..|ms|]
            && forall i :: 0 <= i < |r| - |ms| ==> r[|ms| + i] == PairMember(pairs[i])
    decreases |pairs|
  {
    hide OpenText;
    hide PairMember;
    if pairs != [] {
      var more := ms + [PairMember(pairs[0])];
      if |OpenText(more)| <= CAP {
        AddedPairs(more, pairs[1..]);
        var r := AddPairs(ms, pairs);
        assert r[|ms|] == r[..|more|][|ms|];
        forall i | 0 <= i < |r| - |ms| ensures r[|ms| + i] == PairMember(pairs[i]) {
          if i > 0 {
            assert r[|more| + (i - 1)] == PairMember(pairs[1..][i - 1]);
          }
        }
      }
    }
  }

  ghost predicate ValidPair(pair: (string, JsonLog.Text)) {
    Utf8(pair.0) && Utf8(CharsOf(pair.1))
  }

  predicate PairCutsClean(pair: (string, JsonLog.Text)) {
    CutsClean(pair.0, KEY_SCRATCH_MAX) && CutsClean(CharsOf(pair.1), FIELD_SCRATCH_MAX)
  }

  lemma PairIsValidIff(pair: (string, JsonLog.Text))
    requires ValidPair(pair)
    ensures ValidMember(PairMember(pair)) <==> PairCutsClean(pair)
  {
    CutIsUtf8Iff(pair.0, KEY_SCRATCH_MAX);
    CutIsUtf8Iff(CharsOf(pair.1), FIELD_SCRATCH_MAX);
  }

  lemma {:induction false} AsciiIsUtf8(s: string)
    requires Ascii(s)
    ensures Utf8(s)
  {
    AsciiInFront(s, "");
    assert s + "" == s;
  }

  /** cf_log on valid texts writes a valid line exactly when neither the message nor a pair that made it
      into the line was cut inside a character. */
  lemma {:induction false} LogIsUtf8Iff(ts: string, level: Level, service: string, msg: JsonLog.Text, pairs: seq<(string, JsonLog.Text)>)
    requires Utf8(ts) && Utf8(service) && Utf8(CharsOf(msg))
    requires forall i :: 0 <= i < |pairs| ==> ValidPair(pairs[i])
    ensures var ms := Members(ts, level, service, msg, pairs);
            && 4 <= |ms| <= 4 + |pairs|
            && (Utf8(LineText(ms))
                <==> CutsClean(CharsOf(msg), FIELD_SCRATCH_MAX) && forall i :: 0 <= i < |ms| - 4 ==> PairCutsClean(pairs[i]))
  {
    hide Utf8;
    hide CutsClean;
    hide ValidMember;
    hide PairMember;
    hide PairCutsClean;
    hide ValidPair;
    hide AddPairs;
    var first, ms := FirstMembers(ts, level, service, msg), Members(ts, level, service, msg, pairs);
    AddedPairs(first, pairs);
    LineIsUtf8Iff(ms);
    FirstMembersValid(ts, level, service, msg);
    forall i | 0 <= i < |pairs| ensures ValidMember(PairMember(pairs[i])) <==> PairCutsClean(pairs[i]) {
      PairIsValidIff(pairs[i]);
    }
    MembersSplit(ms, first);
    forall i | 4 <= i < |ms| ensures ValidMember(ms[i]) <==> PairCutsClean(pairs[i - 4]) {
      assert ms[|first| + (i - 4)] == PairMember(pairs[i - 4]);
    }
    forall i | 0 <= i < |ms| - 4 ensures PairCutsClean(pairs[i]) <==> ValidMember(ms[i + 4]) {
      assert ms[|first| + i] == PairMember(pairs[i]);
    }
  }

  lemma MembersSplit(ms: seq<Member>, first: seq<Member>)
    requires |first| <= |ms| && first == ms[..|first|]
    ensures ValidMembers(ms) <==> ValidMembers(first) && forall i :: |first| <= i < |ms| ==> ValidMember(ms[i])
  {
    hide ValidMember;
    assert forall i :: 0 <= i < |first| ==> first[i] == ms[i];
    if ValidMembers(first) && forall i :: |first| <= i < |ms| ==> ValidMember(ms[i]) {
      forall i | 0 <= i < |ms| ensures ValidMember(ms[i]) {
        if i < |first| {
          assert ms[i] == first[i];
        }
      }
    }
  }

  lemma LevelIsUtf8(level: Level)
    ensures Utf8(LevelName(level))
  {
    hide Utf8;
    AsciiIsUtf8(LevelName(level));
  }

  lemma FirstMembersValid(ts: string, level: Level, service: string, msg: JsonLog.Text)
    requires Utf8(ts) && Utf8(service) && Utf8(CharsOf(msg))
    ensures ValidMembers(FirstMembers(ts, level, service, msg)) <==> CutsClean(CharsOf(msg), FIELD_SCRATCH_MAX)
  {
    hide Utf8;
    hide CutsClean;
    hide LevelName;
    hide Taken;
    AsciiIsUtf8("ts");
    AsciiIsUtf8("level");
    AsciiIsUtf8("service");
    AsciiIsUtf8("msg");
    LevelIsUtf8(level);
    CutIsUtf8Iff(CharsOf(msg), FIELD_SCRATCH_MAX);
    var ms := FirstMembers(ts, level, service, msg);
    assert ValidMember(ms[0]) && ValidMember(ms[1]) && ValidMember(ms[2]);
    assert ValidMember(ms[3]) <==> CutsClean(CharsOf(msg), FIELD_SCRATCH_MAX);
  }

  function Letters(n: nat): (s: string)
    ensures |s| == n && forall i :: 0 <= i < n ==> s[i] == 'a'
  {
    seq(n, _ => 'a')
  }

  lemma LetterIsKept()
    ensures Escape('a') == "a"
  {
  }

  lemma {:induction false} LettersAreTaken(n: nat, s: string, room: nat)
    ensures Taken(Letters(n) + s, n + room) == (if n > 0 && room == 0 then n - 1 else n + Taken(s, room))
    decreases n
  {
    hide Escape;
    LetterIsKept();
    if n == 0 {
      assert Letters(0) + s == s;
    } else {
      assert (Letters(n) + s)[0] == 'a' && (Letters(n) + s)[1..] == Letters(n - 1) + s;
      if n + room > 1 {
        LettersAreTaken(n - 1, s, room);
      }
    }
  }

  /** 1022 letters and one accented letter. */
  function LongMessage(): (s: string)
    ensures |s| == 1024
  {
    Letters(1022) + [0xC3 as char, 0xA9 as char]
  }

  lemma AccentedLetter()
    ensures var e: string := [0xC3 as char, 0xA9 as char]; Utf8(e) && Taken(e, 2) == 1 && Continuation(e[1])
  {
    var e: string := [0xC3 as char, 0xA9 as char];
    assert e[1..][1..] == "" && Continued(e[1..], 1) && e[2..] == "";
    assert CharLength(e) == 2;
    assert Escape(e[0]) == [e[0]] && Escape(e[1..][0]) == [e[1]];
  }

  lemma LongMessageIsSplit()
    ensures Utf8(LongMessage()) && !CutsClean(LongMessage(), FIELD_SCRATCH_MAX)
  {
    hide Utf8;
    hide Taken;
    hide Letters;
    var e: string := [0xC3 as char, 0xA9 as char];
    AccentedLetter();
    AsciiInFront(Letters(1022), e);
    LettersAreTaken(1022, e, 2);
    assert LongMessage()[1023] == e[1];
  }

  /** Logging that message, which is cut in the middle of its last letter: every text handed in is valid
      UTF-8, the line is not. */
  method LineIsSplit() returns (out: string)
    ensures Utf8(LongMessage()) && !Utf8(out)
  {
    hide Utf8;
    hide LongMessage;
    hide LineText;
    hide Members;
    hide CutsClean;
    AsciiIsUtf8("2024-01-01T00:00:00.000Z");
    AsciiIsUtf8("cloudflow");
    LongMessageIsSplit();
    LogIsUtf8Iff("2024-01-01T00:00:00.000Z", Info, ServiceName(Null), Text(LongMessage()), []);
    out := Log("2024-01-01T00:00:00.000Z", Info, ServiceName(Null), Text(LongMessage()), []);
  }
}
