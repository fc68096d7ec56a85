/** The record data of a DNS message: when rdata_text_for in cf_dns.c calls it malformed, and the walk
    over EDNS options (section 6.1.2 of RFC 6891). */
module DnsRdata {
  import opened Bytes
  import opened DnsName

  const TYPE_A := 1
  const TYPE_NS := 2
  const TYPE_CNAME := 5
  const TYPE_SOA := 6
  const TYPE_PTR := 12
  const TYPE_MX := 15
  const TYPE_TXT := 16
  const TYPE_AAAA := 28
  const TYPE_SRV := 33

  // ---------------------------------------------------------------- well-formed record data

  /** The message holds a name within the decoder's limits at pos, in the bytes up to end. */
  ghost predicate NameAt(msg: seq<byte>, pos: nat, labels: seq<Label>, end: nat) {
    pos <= |msg| && Octets(labels) <= MAX_NAME_OCTETS && Held(msg, pos, labels) && end == pos + Advance(msg, pos, 0)
  }

  ghost predicate SomeNameAt(msg: seq<byte>, pos: nat, end: nat) {
    exists labels :: NameAt(msg, pos, labels, end)
  }

  ghost predicate HoldsName(msg: seq<byte>, pos: nat) {
    exists e: nat :: SomeNameAt(msg, pos, e)
  }

  /** Character-strings: a length octet and that many bytes each. */
  function CharStrings(strings: seq<seq<byte>>): (s: seq<byte>)
    requires forall i :: 0 <= i < |strings| ==> |strings[i]| < 0x100
  {
    if strings == [] then [] else [|strings[0]|] + strings[0] + CharStrings(strings[1..])
  }

  ghost predicate AreCharStrings(data: seq<byte>) {
    exists strings: seq<seq<byte>> ::
      (forall i :: 0 <= i < |strings| ==> |strings[i]| < 0x100) && data == CharStrings(strings)
  }

  /** Record data of this type, `len` bytes at off, has the shape its type asks for. A name may end
      beyond the data: only the numbers behind the names of an SOA record are held to its length. The types
      are A 1, NS 2, CNAME 5, SOA 6, PTR 12, MX 15, TXT 16, AAAA 28 and SRV 33. */
  ghost predicate WellFormed(msg: seq<byte>, typ: u16, off: nat, len: nat)
    requires off + len <= |msg|
  {
    if typ == 1 then len == 4
    else if typ == 28 then len == 16
    else if typ == 2 || typ == 5 || typ == 12 then HoldsName(msg, off)
    else if typ == 15 then len >= 3 && HoldsName(msg, off + 2)
    else if typ == 33 then len >= 7 && HoldsName(msg, off + 6)
    else if typ == 6 then
      exists e: nat, f: nat :: SomeNameAt(msg, off, e) && SomeNameAt(msg, e, f) && f + 20 <= off + len
    else typ == 16 ==> AreCharStrings(msg[off..off + len])
  }

  // ---------------------------------------------------------------- the checks

  predicate TxtFine(data: seq<byte>) {
    data == [] || (1 + data[0] <= |data| && TxtFine(data[1 + data[0]..]))
  }

  predicate SoaFine(msg: seq<byte>, off: nat, len: nat) {
    && Decode(msg, off, 0, 0).ok
    && var p := off + Advance(msg, off, 0);
       Decode(msg, p, 0, 0).ok && p + Advance(msg, p, 0) + 20 <= off + len
  }

  predicate Fine(msg: seq<byte>, typ: u16, off: nat, len: nat)
    requires off + len <= |msg|
  {
    if typ == TYPE_A then len == 4
    else if typ == TYPE_AAAA then len == 16
    else if typ == TYPE_NS || typ == TYPE_CNAME || typ == TYPE_PTR then Decode(msg, off, 0, 0).ok
    else if typ == TYPE_MX then len >= 3 && Decode(msg, off + 2, 0, 0).ok
    else if typ == TYPE_SRV then len >= 7 && Decode(msg, off + 6, 0, 0).ok
    else if typ == TYPE_SOA then SoaFine(msg, off, len)
    else typ == TYPE_TXT ==> TxtFine(msg[off..off + len])
  }

  lemma {:induction false} TxtFineIff(data: seq<byte>)
    ensures TxtFine(data) <==> AreCharStrings(data)
  {
    if TxtFine(data) {
      var strings := TxtSplits(data);
      assert data == CharStrings(strings);
    }
    if AreCharStrings(data) {
      var strings: seq<seq<byte>> :|
        (forall i :: 0 <= i < |strings| ==> |strings[i]| < 0x100) && data == CharStrings(strings);
      CharStringsAreFine(strings);
    }
  }

  lemma {:induction false} TxtSplits(data: seq<byte>) returns (strings: seq<seq<byte>>)
    requires TxtFine(data)
    ensures forall i :: 0 <= i < |strings| ==> |strings[i]| < 0x100
    ensures data == CharStrings(strings)
  {
    if data == [] {
      strings := [];
    } else {
      var n := data[0];
      var rest := TxtSplits(data[1 + n..]);
      strings := [data[1..1 + n]] + rest;
      assert strings[1..] == rest;
      assert data == [n] + data[1..1 + n] + data[1 + n..];
    }
  }

  lemma {:induction false} CharStringsAreFine(strings: seq<seq<byte>>)
    requires forall i :: 0 <= i < |strings| ==> |strings[i]| < 0x100
    ensures TxtFine(CharStrings(strings))
  {
    if strings != [] {
      var rest := CharStrings(strings[1..]);
      CharStringsAreFine(strings[1..]);
      var n := |strings[0]|;
      assert ([n] + strings[0] + rest)[1 + n..] == rest;
    }
  }

  lemma {:induction false} NameFineIff(msg: seq<byte>, pos: nat, end: nat)
    requires pos <= |msg|
    ensures Decode(msg, pos, 0, 0).ok && end == pos + Advance(msg, pos, 0) <==> SomeNameAt(msg, pos, end)
  {
    var d := Decode(msg, pos, 0, 0);
    if d.ok && end == pos + Advance(msg, pos, 0) {
      DecodesExactlyTheEncodedName(msg, pos, d.labels);
      assert NameAt(msg, pos, d.labels, end);
    }
    if SomeNameAt(msg, pos, end) {
      var labels :| NameAt(msg, pos, labels, end);
      DecodesExactlyTheEncodedName(msg, pos, labels);
    }
  }

  lemma {:induction false} NameFineIffHeld(msg: seq<byte>, pos: nat)
    requires pos <= |msg|
    ensures Decode(msg, pos, 0, 0).ok <==> HoldsName(msg, pos)
  {
    hide SomeNameAt;
    hide Decode;
    hide Advance;
    NameFineIff(msg, pos, pos + Advance(msg, pos, 0));
    if e: nat :| SomeNameAt(msg, pos, e) {
      NameFineIff(msg, pos, e);
    }
  }

  lemma {:induction false} SoaFineIff(msg: seq<byte>, off: nat, len: nat)
    requires off + len <= |msg|
    ensures SoaFine(msg, off, len)
            <==> exists e: nat, f: nat :: SomeNameAt(msg, off, e) && SomeNameAt(msg, e, f) && f + 20 <= off + len
  {
    hide SomeNameAt;
    hide Decode;
    hide Advance;
    AdvanceStaysInside(msg, off);
    var p := off + Advance(msg, off, 0);
    NameFineIff(msg, off, p);
    NameFineIff(msg, p, p + Advance(msg, p, 0));
    if e: nat, f: nat :| SomeNameAt(msg, off, e) && SomeNameAt(msg, e, f) && f + 20 <= off + len {
      NameFineIff(msg, off, e);
      NameFineIff(msg, e, f);
    }
  }

  /** The checks find record data malformed exactly when it does not have the shape of its type. */
  lemma FineIffWellFormed(msg: seq<byte>, typ: u16, off: nat, len: nat)
    requires off + len <= |msg|
    ensures Fine(msg, typ, off, len) <==> WellFormed(msg, typ, off, len)
  {
    hide SomeNameAt;
    hide Decode;
    hide SoaFine;
    hide TxtFine;
    hide AreCharStrings;
    NameFineIffHeld(msg, off);
    if len >= 3 {
      NameFineIffHeld(msg, off + 2);
    }
    if len >= 7 {
      NameFineIffHeld(msg, off + 6);
    }
    SoaFineIff(msg, off, len);
    TxtFineIff(msg[off..off + len]);
  }

  // ---------------------------------------------------------------- as they run

  method CheckName(msg: seq<byte>, off: nat) returns (ok: bool, consumed: nat)
    ensures ok == Decode(msg, off, 0, 0).ok && consumed == Advance(msg, off, 0)
  {
    var name := new byte[NAME_BUF];
    ok, consumed := DecodeName(msg, off, true, name);
  }

  /** rdata_txt_text: walks the character-strings; an overlong one is cut at the end of the data. */
  method TxtMalformed(msg: seq<byte>, off: nat, len: nat) returns (malformed: bool)
    requires off + len <= |msg|
    ensures malformed == !TxtFine(msg[off..off + len])
  {
    var p, end := off, off + len;
    malformed := false;
    while p < end
      invariant off <= p <= end
      invariant TxtFine(msg[off..end]) <==> !malformed && TxtFine(msg[p..end])
    {
      ghost var data := msg[p..end];
      var slen := msg[p];
      p := p + 1;
      if p + slen > end {
        malformed := true;
        slen := end - p;
      } else {
        assert data[1 + slen..] == msg[p + slen..end];
      }
      p := p + slen;
    }
  }

  /** rdata_soa_text: two names, then five 32-bit numbers inside the data. */
  method SoaMalformed(msg: seq<byte>, off: nat, len: nat) returns (malformed: bool)
    requires off + len <= |msg|
    ensures malformed == !SoaFine(msg, off, len)
  {
    var ok, consumed := CheckName(msg, off);
    if !ok {
      return true;
    }
    var p := off + consumed;
    ok, consumed := CheckName(msg, p);
    if !ok {
      return true;
    }
    p := p + consumed;
    malformed := p + 20 > off + len || p + 20 > |msg|;
  }

  /** rdata_text_for, as far as it decides whether the record is malformed. */
  method RdataMalformed(msg: seq<byte>, typ: u16, off: nat, len: nat) returns (malformed: bool)
    requires off + len <= |msg|
    ensures malformed == !WellFormed(msg, typ, off, len)
  {
    hide Decode;
    hide SoaFine;
    hide TxtFine;
    hide WellFormed;
    FineIffWellFormed(msg, typ, off, len);
    malformed := false;
    if typ == TYPE_A {
      malformed := len != 4 || off + 4 > |msg|;
    } else if typ == TYPE_AAAA {
      malformed := len != 16 || off + 16 > |msg|;
    } else if typ == TYPE_NS || typ == TYPE_CNAME || typ == TYPE_PTR {
      var ok, _ := CheckName(msg, off);
      malformed := !ok;
    } else if typ == TYPE_MX {
      if len < 3 || off + 2 > |msg| {
        return true;
      }
      var ok, _ := CheckName(msg, off + 2);
      malformed := !ok;
    } else if typ == TYPE_SRV {
      if len < 7 || off + 6 > |msg| {
        return true;
      }
      var ok, _ := CheckName(msg, off + 6);
      malformed := !ok;
    } else if typ == TYPE_SOA {
      malformed := SoaMalformed(msg, off, len);
    } else if typ == TYPE_TXT {
      malformed := TxtMalformed(msg, off, len);
    }
  }

  // ---------------------------------------------------------------- EDNS options

  datatype EdnsOption = EdnsOption(code: u16, value: seq<byte>)

  /** The options walked, and whether the last one claimed more bytes than there are. */
  datatype OptionWalk = OptionWalk(options: seq<EdnsOption>, overrun: bool)

  /** Options up to the end of the data; fewer than four bytes at the end are ignored. */
  function Options(data: seq<byte>): (w: OptionWalk) {
    if |data| < 4 then OptionWalk([], false)
    else
      var code, olen := Be16(data, 0), Be16(data, 2);
      if 4 + olen > |data| then OptionWalk([EdnsOption(code, data[4..])], true)
      else
        var rest := Options(data[4 + olen..]);
        OptionWalk([EdnsOption(code, data[4..4 + olen])] + rest.options, rest.overrun)
  }

  predicate Encodable(options: seq<EdnsOption>) {
    forall i :: 0 <= i < |options| ==> |options[i].value| < 0x1_0000
  }

  function Encoded(options: seq<EdnsOption>): (s: seq<byte>)
    requires Encodable(options)
  {
    if options == [] then []
    else Two(options[0].code) + Two(|options[0].value|) + options[0].value + Encoded(options[1..])
  }

  /** The data starts with this option. */
  predicate OptionFirst(data: seq<byte>, code: u16, value: seq<byte>, rest: seq<byte>) {
    && |value| < 0x1_0000 && |data| >= 4 && Be16(data, 0) == code && Be16(data, 2) == |value|
    && data[4..] == value + rest
  }

  lemma OptionInFront(code: u16, value: seq<byte>, rest: seq<byte>)
    requires |value| < 0x1_0000
    ensures OptionFirst(Two(code) + Two(|value|) + value + rest, code, value, rest)
  {
    var data := Two(code) + Two(|value|) + value + rest;
    assert data[0] == Two(code)[0] && data[1] == Two(code)[1];
    assert data[2] == Two(|value|)[0] && data[3] == Two(|value|)[1];
    assert data[4..] == value + rest;
  }

  lemma WalkPassesOption(data: seq<byte>, code: u16, value: seq<byte>, rest: seq<byte>)
    requires OptionFirst(data, code, value, rest)
    ensures var more := Options(rest);
            Options(data) == OptionWalk([EdnsOption(code, value)] + more.options, more.overrun)
  {
    assert data[4..4 + |value|] == data[4..][..|value|] == value;
    assert data[4 + |value|..] == data[4..][|value|..] == rest;
  }

  /** Round trip: encoded options walk back, whatever short remainder follows them. */
  lemma {:induction false} OptionsWalkBack(options: seq<EdnsOption>, tail: seq<byte>)
    requires Encodable(options) && |tail| < 4
    ensures Options(Encoded(options) + tail) == OptionWalk(options, false)
    decreases |options|
  {
    hide OptionFirst;
    if options == [] {
      assert Encoded(options) + tail == tail;
    } else {
      var first, rest := options[0], Encoded(options[1..]) + tail;
      OptionsWalkBack(options[1..], tail);
      OptionInFront(first.code, first.value, rest);
      assert Encoded(options) + tail == Two(first.code) + Two(|first.value|) + first.value + rest;
      WalkPassesOption(Encoded(options) + tail, first.code, first.value, rest);
      assert [first] + options[1..] == options;
    }
  }

  /** What a walk says about the data: complete options and a remainder of fewer than four bytes, or
      complete options and one more whose length claims more than what is left, all of which it gets. */
  ghost predicate Describes(w: OptionWalk, data: seq<byte>) {
    && Encodable(w.options) && (w.overrun ==> w.options != [])
    && var whole := if w.overrun then w.options[..|w.options| - 1] else w.options;
       && Encoded(whole) <= data
       && var rest := data[|Encoded(whole)|..];
          if w.overrun then
            |rest| >= 4 && w.options[|w.options| - 1] == EdnsOption(Be16(rest, 0), rest[4..]) && Be16(rest, 2) > |rest| - 4
          else |rest| < 4
  }

  lemma EncodedInFront(data: seq<byte>, code: u16, value: seq<byte>, rest: seq<byte>, more: seq<EdnsOption>)
    requires OptionFirst(data, code, value, rest) && Encodable(more)
    ensures var all := [EdnsOption(code, value)] + more;
            && Encodable(all) && |Encoded(all)| == 4 + |value| + |Encoded(more)|
            && (Encoded(all) <= data <==> Encoded(more) <= rest)
            && (Encoded(all) <= data ==> data[|Encoded(all)|..] == rest[|Encoded(more)|..])
  {
    var all := [EdnsOption(code, value)] + more;
    assert all[1..] == more;
    var head := Two(code) + Two(|value|) + value;
    assert Encoded(all) == head + Encoded(more);
    assert data == head + rest by {
      assert data == data[..4] + data[4..] && data[..4] == Two(code) + Two(|value|) by {
        assert data[0] == Two(code)[0] && data[1] == Two(code)[1];
        assert data[2] == Two(|value|)[0] && data[3] == Two(|value|)[1];
      }
    }
    var n := |head|;
    assert data[n..] == rest;
    if Encoded(all) <= data {
      assert Encoded(all)[n..] == Encoded(more) && Encoded(all) == data[..|Encoded(all)|];
      assert Encoded(more) == rest[..|Encoded(more)|];
    }
    if Encoded(more) <= rest {
      assert rest == Encoded(more) + rest[|Encoded(more)|..];
      assert data == Encoded(all) + rest[|Encoded(more)|..];
    }
  }

  lemma DescribesOneMore(data: seq<byte>, code: u16, value: seq<byte>, rest: seq<byte>, w: OptionWalk)
    requires OptionFirst(data, code, value, rest) && (w.overrun ==> w.options != [])
    ensures Describes(OptionWalk([EdnsOption(code, value)] + w.options, w.overrun), data) <==> Describes(w, rest)
  {
    hide Encoded;
    hide OptionFirst;
    var o := EdnsOption(code, value);
    var all := [o] + w.options;
    if Encodable(w.options) {
      if w.overrun {
        var whole := w.options[..|w.options| - 1];
        assert all[..|all| - 1] == [o] + whole && all[|all| - 1] == w.options[|w.options| - 1];
        EncodedInFront(data, code, value, rest, whole);
      } else {
        EncodedInFront(data, code, value, rest, w.options);
      }
    } else {
      assert all[1..] == w.options;
      var i :| 0 <= i < |w.options| && |w.options[i].value| >= 0x1_0000;
      assert all[i + 1] == w.options[i];
    }
  }

  lemma {:induction false} OptionsDescribe(data: seq<byte>)
    ensures Describes(Options(data), data)
    decreases |data|
  {
    if |data| >= 4 {
      var code, olen := Be16(data, 0), Be16(data, 2);
      if 4 + olen <= |data| {
        var value, rest := data[4..4 + olen], data[4 + olen..];
        OptionsDescribe(rest);
        assert OptionFirst(data, code, value, rest) by { assert data[4..] == value + rest; }
        DescribesOneMore(data, code, value, rest, Options(rest));
      }
    }
  }

  lemma EncodedStart(options: seq<EdnsOption>, data: seq<byte>)
    requires Encodable(options) && options != [] && Encoded(options) <= data
    ensures var n := 4 + |options[0].value|;
            n <= |data| && OptionFirst(data, options[0].code, options[0].value, data[n..])
  {
    var first := options[0];
    var tail := Encoded(options[1..]) + data[|Encoded(options)|..];
    assert data == Two(first.code) + Two(|first.value|) + first.value + tail;
    OptionInFront(first.code, first.value, tail);
    assert data[4 + |first.value|..] == tail;
  }

  lemma {:induction false} DescribedIsOptions(w: OptionWalk, data: seq<byte>)
    requires Describes(w, data)
    ensures w == Options(data)
    decreases |data|
  {
    hide Describes;
    hide OptionFirst;
    hide Options;
    if w.options == [] || (w.overrun && |w.options| == 1) {
      DescribedByFew(w, data);
    } else {
      var first, more := w.options[0], OptionWalk(w.options[1..], w.overrun);
      StartsWithFirst(w, data);
      var tail := data[4 + |first.value|..];
      assert w == OptionWalk([first] + more.options, more.overrun);
      DescribesOneMore(data, first.code, first.value, tail, more);
      DescribedIsOptions(more, tail);
      WalkPassesOption(data, first.code, first.value, tail);
    }
  }

  lemma StartsWithFirst(w: OptionWalk, data: seq<byte>)
    requires Describes(w, data) && w.options != [] && (w.overrun ==> |w.options| > 1)
    ensures var first := w.options[0];
            && 4 + |first.value| <= |data|
            && OptionFirst(data, first.code, first.value, data[4 + |first.value|..])
  {
    EncodedStart(if w.overrun then w.options[..|w.options| - 1] else w.options, data);
  }

  lemma DescribedByFew(w: OptionWalk, data: seq<byte>)
    requires Describes(w, data) && (w.options == [] || (w.overrun && |w.options| == 1))
    ensures w == Options(data)
  {
    assert w.overrun ==> w.options[..0] == [];
    assert data[0..] == data;
  }

  /** The walk finds exactly what the data holds, and says so when the last option overruns. */
  lemma OptionsIffDescribed(w: OptionWalk, data: seq<byte>)
    ensures w == Options(data) <==> Describes(w, data)
  {
    OptionsDescribe(data);
    if Describes(w, data) {
      DescribedIsOptions(w, data);
    }
  }

  function Behind(options: seq<EdnsOption>, rest: OptionWalk): (w: OptionWalk) {
    OptionWalk(options + rest.options, rest.overrun)
  }

  lemma SliceOfSlice(s: seq<byte>, a: nat, b: nat, i: nat, j: nat)
    requires a <= b <= |s| && i <= j <= b - a
    ensures s[a..b][i..j] == s[a + i..a + j]
  {
    var t, u := s[a..b][i..j], s[a + i..a + j];
    assert forall k :: 0 <= k < j - i ==> t[k] == s[a..b][i + k] == s[a + i + k] == u[k];
  }

  lemma WalkStep(msg: seq<byte>, p: nat, end: nat, options: seq<EdnsOption>)
    requires p + 4 <= end <= |msg|
    ensures var olen := Be16(msg, p + 2);
            var stop := if p + 4 + olen > end then end else p + 4 + olen;
            var more := options + [EdnsOption(Be16(msg, p), msg[p + 4..stop])];
            Behind(options, Options(msg[p..end]))
            == if p + 4 + olen > end then OptionWalk(more, true) else Behind(more, Options(msg[stop..end]))
  {
    var data, olen: int := msg[p..end], Be16(msg, p + 2);
    assert Be16(data, 0) == Be16(msg, p) && Be16(data, 2) == olen;
    if p + 4 + olen > end {
      assert data[4..] == msg[p + 4..end];
    } else {
      SliceOfSlice(msg, p, end, 4, 4 + olen);
      assert data[4 + olen..] == msg[p + 4 + olen..end];
      var o, rest := EdnsOption(Be16(msg, p), data[4..4 + olen]), Options(data[4 + olen..]).options;
      assert options + ([o] + rest) == (options + [o]) + rest;
    }
  }

  /** build_edns's loop over the options. */
  method WalkOptions(msg: seq<byte>, off: nat, len: nat) returns (w: OptionWalk)
    requires off + len <= |msg|
    ensures w == Options(msg[off..off + len])
  {
    hide Options;
    hide Behind;
    var p, end := off, off + len;
    var options, overrun := [], false;
    assert Behind([], Options(msg[p..end])) == Options(msg[p..end]) by { NoneBehind(Options(msg[p..end])); }
    while p + 4 <= end
      invariant off <= p <= end && (overrun ==> p == end)
      invariant Options(msg[off..end])
                == if overrun then OptionWalk(options, true) else Behind(options, Options(msg[p..end]))
      decreases end - p
    {
      WalkStep(msg, p, end, options);
      var code, olen := Be16(msg, p), Be16(msg, p + 2);
      p := p + 4;
      if p + olen > end {
        overrun := true;
        olen := end - p;
      }
      options := options + [EdnsOption(code, msg[p..p + olen])];
      p := p + olen;
    }
    w := OptionWalk(options, overrun);
    ShortTail(msg[p..end], options);
  }

  lemma NoneBehind(w: OptionWalk)
    ensures Behind([], w) == w
  {
    assert [] + w.options == w.options;
  }

  lemma ShortTail(data: seq<byte>, options: seq<EdnsOption>)
    requires |data| < 4
    ensures Behind(options, Options(data)) == OptionWalk(options, false)
  {
    assert options + [] == options;
  }
}
