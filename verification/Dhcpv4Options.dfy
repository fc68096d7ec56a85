/** The DHCPv4 option walk, option overload and the concatenation of long options (cf_dhcpv4.c,
    cf_dhcpv4_util.c). */
module Dhcpv4Options {
  import opened Bytes

  const PAD := 0
  const END := 255
  const OVERLOAD := 52

  const FIXED_LEN := 236
  const OPTIONS_OFF := 240
  const FILE_OFF := 108
  const FILE_LEN := 128
  const SNAME_OFF := 44
  const SNAME_LEN := 64

  datatype Source = Options | File | Sname

  datatype Item = Item(code: byte, source: Source, ordinal: nat, malformed: bool, value: seq<byte>, fragment: bool)

  /** A warning names the item it is about; the context is at most 16 bytes. */
  datatype Warning = MissingLength(index: nat, code: byte) | LengthOverrun(index: nat, context: seq<byte>)

  // ---------------------------------------------------------------- one field

  datatype Step = Skip | Stop | NoLength | Overrun | Whole(len: nat)

  /** What stands at the front of a field. */
  function Front(field: seq<byte>): (s: Step)
    ensures s.Whole? ==> 2 + s.len <= |field|
  {
    if field == [] || field[0] == END then Stop
    else if field[0] == PAD then Skip
    else if |field| < 2 then NoLength
    else if field[1] > |field| - 2 then Overrun
    else Whole(field[1])
  }

  /** The options of a field, numbered from ordinal on. */
  function Walk(field: seq<byte>, source: Source, ordinal: nat): (items: seq<Item>)
    decreases |field|
  {
    match Front(field)
    case Skip => Walk(field[1..], source, ordinal)
    case Stop => []
    case NoLength => [Item(field[0], source, ordinal, true, [], false)]
    case Overrun => [Item(field[0], source, ordinal, true, field[2..], false)]
    case Whole(len) =>
      [Item(field[0], source, ordinal, false, field[2..2 + len], false)] + Walk(field[2 + len..], source, ordinal + 1)
  }

  /** The warning the walk ends with, about the item numbered index from here. */
  function Trouble(field: seq<byte>, index: nat): (w: seq<Warning>)
    decreases |field|
  {
    match Front(field)
    case Skip => Trouble(field[1..], index)
    case Stop => []
    case NoLength => [MissingLength(index, field[0])]
    case Overrun => [LengthOverrun(index, Context(field[2..]))]
    case Whole(len) => Trouble(field[2 + len..], index + 1)
  }

  function Context(value: seq<byte>): (c: seq<byte>) {
    if |value| > 16 then value[..16] else value
  }

  /** The value of the last overload option that has one, or else what was known before. */
  function OverloadOf(items: seq<Item>, before: byte): (v: byte) {
    if items == [] then before
    else
      var last := items[|items| - 1];
      if last.code == OVERLOAD && last.value != [] then last.value[0] else OverloadOf(items[..|items| - 1], before)
  }

  /** An option as RFC 2132 writes it, behind some pads. */
  datatype Option = Option(pads: nat, code: byte, value: seq<byte>)

  predicate Encodable(o: Option) {
    PAD < o.code < END && |o.value| < 0x100
  }

  function EncodeOne(o: Option): (s: seq<byte>)
    requires Encodable(o)
  {
    Zeros(o.pads) + [o.code, |o.value|] + o.value
  }

  predicate AllEncodable(os: seq<Option>) {
    forall o :: o in os ==> Encodable(o)
  }

  /** The options in order, then whatever ends the field. */
  function Encode(os: seq<Option>, ending: seq<byte>): (s: seq<byte>)
    requires AllEncodable(os)
  {
    if os == [] then ending else EncodeOne(os[0]) + Encode(os[1..], ending)
  }

  /** Pads up to the end of the field, or to an end byte with anything behind it. */
  ghost predicate IsEnding(s: seq<byte>) {
    exists pads: nat, rest :: PadsThen(s, pads, rest)
  }

  predicate PadsThen(s: seq<byte>, pads: nat, rest: seq<byte>) {
    s == Zeros(pads) + rest && (rest == [] || rest[0] == END)
  }

  function ItemsOf(os: seq<Option>, source: Source, ordinal: nat): (items: seq<Item>)
    ensures |items| == |os|
    ensures forall i :: 0 <= i < |os| ==>
              items[i] == Item(os[i].code, source, ordinal + i, false, os[i].value, false)
  {
    seq(|os|, i requires 0 <= i < |os| => Item(os[i].code, source, ordinal + i, false, os[i].value, false))
  }

  lemma {:induction false} WalkSkipsPads(pads: nat, rest: seq<byte>, source: Source, ordinal: nat, index: nat)
    ensures Walk(Zeros(pads) + rest, source, ordinal) == Walk(rest, source, ordinal)
    ensures Trouble(Zeros(pads) + rest, index) == Trouble(rest, index)
  {
    var s := Zeros(pads) + rest;
    if pads == 0 {
      assert s == rest;
    } else {
      assert s[1..] == Zeros(pads - 1) + rest;
      WalkSkipsPads(pads - 1, rest, source, ordinal, index);
    }
  }

  lemma WalkEnds(ending: seq<byte>, source: Source, ordinal: nat, index: nat)
    requires IsEnding(ending)
    ensures Walk(ending, source, ordinal) == [] && Trouble(ending, index) == []
  {
    var pads: nat, rest :| PadsThen(ending, pads, rest);
    WalkSkipsPads(pads, rest, source, ordinal, index);
  }

  /** What was encoded comes back: the same options in order, numbered from 0, none malformed. */
  lemma {:induction false} EncodedOptionsWalkBack(os: seq<Option>, ending: seq<byte>, source: Source, ordinal: nat, index: nat)
    requires AllEncodable(os) && IsEnding(ending)
    ensures Walk(Encode(os, ending), source, ordinal) == ItemsOf(os, source, ordinal)
    ensures Trouble(Encode(os, ending), index) == []
  {
    if os == [] {
      WalkEnds(ending, source, ordinal, index);
    } else {
      var o := os[0];
      assert o in os;
      assert AllEncodable(os[1..]);
      var rest := Encode(os[1..], ending);
      var s := [o.code, |o.value|] + o.value + rest;
      assert Encode(os, ending) == Zeros(o.pads) + s;
      WalkSkipsPads(o.pads, s, source, ordinal, index);
      assert s[2..2 + |o.value|] == o.value && s[2 + |o.value|..] == rest;
      EncodedOptionsWalkBack(os[1..], ending, source, ordinal + 1, index + 1);
      assert os == [o] + os[1..];
      ItemsOfMore(o, os[1..], source, ordinal);
    }
  }

  /** The converse: a field that walks without a malformed item is the encoding of its items. */
  lemma {:induction false} CleanWalkIsAnEncoding(field: seq<byte>, source: Source, ordinal: nat, index: nat)
    returns (os: seq<Option>, ending: seq<byte>)
    requires Trouble(field, index) == []
    ensures AllEncodable(os) && IsEnding(ending) && Encode(os, ending) == field
    ensures Walk(field, source, ordinal) == ItemsOf(os, source, ordinal)
    decreases |field|
  {
    hide AllEncodable;
    hide Encode;
    hide IsEnding;
    match Front(field) {
      case Stop =>
        os, ending := [], field;
        NothingEncoded(field);
      case Skip =>
        os, ending := CleanWalkIsAnEncoding(field[1..], source, ordinal, index);
        os, ending := OnePadMore(os, ending, field);
      case Whole(len) =>
        var more, rest := CleanWalkIsAnEncoding(field[2 + len..], source, ordinal + 1, index + 1);
        os, ending := [Option(0, field[0], field[2..2 + len])] + more, rest;
        OneOptionMore(field, len, more, rest, source, ordinal);
    }
  }

  lemma NothingEncoded(field: seq<byte>)
    requires field == [] || field[0] == END
    ensures AllEncodable([]) && Encode([], field) == field && IsEnding(field)
  {
    assert PadsThen(field, 0, field);
  }

  lemma OneOptionMore(field: seq<byte>, len: nat, more: seq<Option>, ending: seq<byte>, source: Source, ordinal: nat)
    requires Front(field) == Whole(len) && AllEncodable(more) && Encode(more, ending) == field[2 + len..]
    ensures var o := Option(0, field[0], field[2..2 + len]);
            && AllEncodable([o] + more) && Encode([o] + more, ending) == field
            && ItemsOf([o] + more, source, ordinal)
               == [Item(field[0], source, ordinal, false, o.value, false)] + ItemsOf(more, source, ordinal + 1)
  {
    hide EncodeOne;
    hide ItemsOf;
    var o := Option(0, field[0], field[2..2 + len]);
    assert ([o] + more)[1..] == more;
    EncodesFront(field, len);
    assert field[..2 + len] + field[2 + len..] == field;
    ItemsOfMore(o, more, source, ordinal);
  }

  lemma EncodesFront(field: seq<byte>, len: nat)
    requires Front(field) == Whole(len)
    ensures var o := Option(0, field[0], field[2..2 + len]); Encodable(o) && EncodeOne(o) == field[..2 + len]
  {
  }

  lemma ItemsOfMore(o: Option, more: seq<Option>, source: Source, ordinal: nat)
    ensures ItemsOf([o] + more, source, ordinal)
            == [Item(o.code, source, ordinal, false, o.value, false)] + ItemsOf(more, source, ordinal + 1)
  {
  }

  lemma OnePadMore(os: seq<Option>, ending: seq<byte>, field: seq<byte>) returns (os': seq<Option>, ending': seq<byte>)
    requires AllEncodable(os) && IsEnding(ending) && field != [] && field[0] == PAD && Encode(os, ending) == field[1..]
    ensures AllEncodable(os') && IsEnding(ending') && Encode(os', ending') == field
    ensures forall source, ordinal :: ItemsOf(os', source, ordinal) == ItemsOf(os, source, ordinal)
  {
    if os == [] {
      var pads: nat, rest :| PadsThen(ending, pads, rest);
      os', ending' := [], field;
      assert PadsThen(field, pads + 1, rest);
    } else {
      var o := os[0];
      assert o in os;
      var o' := o.(pads := o.pads + 1);
      os', ending' := [o'] + os[1..], ending;
      assert os'[1..] == os[1..];
      assert EncodeOne(o') == [PAD] + EncodeOne(o);
    }
  }

  /** A warning and a malformed item come together, and both come last. */
  lemma {:induction false} MalformedIsLast(field: seq<byte>, source: Source, ordinal: nat, index: nat)
    ensures var items, w := Walk(field, source, ordinal), Trouble(field, index);
            && |w| <= 1
            && (forall i :: 0 <= i < |items| ==> items[i].ordinal == ordinal + i && !items[i].fragment)
            && (forall i :: 0 <= i < |items| ==> (items[i].malformed <==> i == |items| - 1 && w != []))
            && (w != [] ==> items != [] && w[0].index == index + |items| - 1)
    decreases |field|
  {
    match Front(field) {
      case Skip => MalformedIsLast(field[1..], source, ordinal, index);
      case Whole(len) => MalformedIsLast(field[2 + len..], source, ordinal + 1, index + 1);
      case _ =>
    }
  }

  // ---------------------------------------------------------------- long options

  /** The values of one code, in order, as RFC 3396 joins them. */
  function Joined(items: seq<Item>, code: byte): (s: seq<byte>) {
    if items == [] then []
    else
      var last := items[|items| - 1];
      Joined(items[..|items| - 1], code) + if last.code == code then last.value else []
  }

  predicate Occurs(items: seq<Item>, code: byte) {
    exists i :: 0 <= i < |items| && items[i].code == code
  }

  lemma JoinedMore(items: seq<Item>, it: Item)
    ensures forall code :: Joined(items + [it], code) == Joined(items, code) + if it.code == code then it.value else []
    ensures forall code :: Occurs(items + [it], code) <==> Occurs(items, code) || it.code == code
  {
    assert (items + [it])[..|items|] == items;
    forall code ensures Occurs(items + [it], code) <==> Occurs(items, code) || it.code == code {
      if Occurs(items, code) {
        var i :| 0 <= i < |items| && items[i].code == code;
        assert (items + [it])[i].code == code;
      } else if it.code == code {
        assert (items + [it])[|items|].code == code;
      }
    }
  }

  /** Concatenation over several fields is concatenation of the fields' concatenations, in order. */
  lemma {:induction false} JoinedConcat(a: seq<Item>, b: seq<Item>, code: byte)
    ensures Joined(a + b, code) == Joined(a, code) + Joined(b, code)
  {
    if b == [] {
      assert a + b == a;
    } else {
      JoinedConcat(a, b[..|b| - 1], code);
      assert (a + b)[..|a + b| - 1] == a + b[..|b| - 1];
    }
  }

  datatype Entry = Entry(code: byte, data: seq<byte>)

  /** How often the code occurs. */
  function Times(items: seq<Item>, code: byte): (n: nat) {
    if items == [] then 0
    else Times(items[..|items| - 1], code) + if items[|items| - 1].code == code then 1 else 0
  }

  lemma {:induction false} TimesCounts(items: seq<Item>, i: nat)
    requires i < |items|
    ensures Times(items, items[i].code) >= 1
    ensures Times(items, items[i].code) > 1 <==> exists j :: 0 <= j < |items| && j != i && items[j].code == items[i].code
  {
    var n, c := |items| - 1, items[i].code;
    if i == n {
      if Times(items[..n], c) > 0 {
        var j := Find(items[..n], c);
        assert items[j].code == c;
      } else {
        NotFound(items[..n], c);
      }
    } else {
      assert items[..n][i] == items[i];
      TimesCounts(items[..n], i);
    }
  }

  lemma {:induction false} Find(items: seq<Item>, code: byte) returns (j: nat)
    requires Times(items, code) > 0
    ensures j < |items| && items[j].code == code
  {
    if items[|items| - 1].code == code {
      j := |items| - 1;
    } else {
      j := Find(items[..|items| - 1], code);
    }
  }

  lemma {:induction false} NotFound(items: seq<Item>, code: byte)
    requires Times(items, code) == 0
    ensures forall j :: 0 <= j < |items| ==> items[j].code != code
  {
    if items != [] {
      NotFound(items[..|items| - 1], code);
    }
  }

  // ---------------------------------------------------------------- the whole message

  predicate HasCookie(payload: seq<byte>) {
    |payload| >= OPTIONS_OFF && payload[FIXED_LEN..OPTIONS_OFF] == [99, 130, 83, 99]
  }

  function OptionItems(payload: seq<byte>): (items: seq<Item>) {
    if HasCookie(payload) then Walk(payload[OPTIONS_OFF..], Options, 0) else []
  }

  /** The items of the options field, then of file and sname as the overload option says. */
  function AllItems(payload: seq<byte>): (items: seq<Item>)
    requires |payload| >= FIXED_LEN
  {
    var options := OptionItems(payload);
    var v := OverloadOf(options, 0);
    options
    + (if v % 2 == 1 then Walk(payload[FILE_OFF..FILE_OFF + FILE_LEN], File, 0) else [])
    + (if v / 2 % 2 == 1 then Walk(payload[SNAME_OFF..SNAME_OFF + SNAME_LEN], Sname, 0) else [])
  }

  function AllTrouble(payload: seq<byte>): (w: seq<Warning>)
    requires |payload| >= FIXED_LEN
  {
    var options := OptionItems(payload);
    var v := OverloadOf(options, 0);
    var file := if v % 2 == 1 then Walk(payload[FILE_OFF..FILE_OFF + FILE_LEN], File, 0) else [];
    (if HasCookie(payload) then Trouble(payload[OPTIONS_OFF..], 0) else [])
    + (if v % 2 == 1 then Trouble(payload[FILE_OFF..FILE_OFF + FILE_LEN], |options|) else [])
    + (if v / 2 % 2 == 1 then Trouble(payload[SNAME_OFF..SNAME_OFF + SNAME_LEN], |options| + |file|) else [])
  }

  class Parser {
    var items: seq<Item>
    var concat: seq<Entry>
    var warnings: seq<Warning>

    /** Each code seen has one entry, holding its joined values. */
    ghost predicate Valid()
      reads this`items, this`concat
    {
      && (forall i, j :: 0 <= i < j < |concat| ==> concat[i].code != concat[j].code)
      && (forall i :: 0 <= i < |concat| ==>
            Occurs(items, concat[i].code) && concat[i].data == Joined(items, concat[i].code))
      && (forall code :: Occurs(items, code) ==> exists i :: 0 <= i < |concat| && concat[i].code == code)
    }

    constructor ()
      ensures Valid() && items == [] && warnings == []
    {
      items, concat, warnings := [], [], [];
    }

    /** concat_map_find_or_add: an existing entry stays, a new one is empty and last. */
    method FindOrAdd(code: byte) returns (i: nat)
      modifies this`concat
      ensures i < |concat| && concat[i].code == code && forall k :: 0 <= k < i ==> concat[k].code != code
      ensures concat == old(concat) || (concat == old(concat) + [Entry(code, [])] && i == |old(concat)|)
    {
      i := 0;
      while i < |concat|
        invariant i <= |concat| && forall k :: 0 <= k < i ==> concat[k].code != code
      {
        if concat[i].code == code {
          return;
        }
        i := i + 1;
      }
      concat := concat + [Entry(code, [])];
    }

    /** Appends to the item list and, in cf_dhcpv4__concat_map_append, to its code's entry. */
    method Append(it: Item)
      requires Valid()
      modifies this`items, this`concat
      ensures Valid() && items == old(items) + [it]
    {
      JoinedMore(items, it);
      ghost var before := concat;
      NotSeenIsEmpty(items, it.code);
      items := items + [it];
      var i := FindOrAdd(it.code);
      if |it.value| > 0 {
        concat := concat[i := Entry(it.code, concat[i].data + it.value)];
      }
      assert forall k :: 0 <= k < |before| && k != i ==> concat[k] == before[k];
      forall code | Occurs(items, code) ensures exists k :: 0 <= k < |concat| && concat[k].code == code {
        if code == it.code {
          assert concat[i].code == code;
        } else {
          var k :| 0 <= k < |before| && before[k].code == code;
          assert concat[k].code == code;
        }
      }
    }

    /** cf_dhcpv4__concat_map_get: every value of the code, joined in order; empty when absent. */
    method Get(code: byte) returns (data: seq<byte>)
      requires Valid()
      ensures data == Joined(items, code)
    {
      for i := 0 to |concat|
        invariant forall k :: 0 <= k < i ==> concat[k].code != code
      {
        if concat[i].code == code {
          return concat[i].data;
        }
      }
      NotSeenIsEmpty(items, code);
      data := [];
    }

    /** cf_dhcpv4__concat_map_has: the code occurred, even with no bytes. */
    method Has(code: byte) returns (has: bool)
      requires Valid()
      ensures has <==> Occurs(items, code)
    {
      for i := 0 to |concat|
        invariant forall k :: 0 <= k < i ==> concat[k].code != code
      {
        if concat[i].code == code {
          return true;
        }
      }
      has := false;
    }

    /** walk_options_field: all of the field's items and warnings, and the overload value seen. */
    method WalkField(field: seq<byte>, source: Source, overload: byte) returns (overload': byte)
      requires Valid()
      modifies this
      ensures Valid() && items == old(items) + Walk(field, source, 0)
      ensures warnings == old(warnings) + Trouble(field, |old(items)|)
      ensures overload' == OverloadOf(Walk(field, source, 0), overload)
    {
      hide Valid;
      hide Walk;
      hide Trouble;
      hide OverloadOf;
      overload' := overload;
      NoOverload(overload);
      var pos: nat, ordinal: nat := 0, 0;
      ghost var seen: seq<Item> := [];
      ghost var all := Walk(field, source, 0);
      assert field[0..] == field && seen + all == all;
      while pos < |field|
        invariant pos <= |field| && Valid()
        invariant items == old(items) + seen && warnings == old(warnings)
        invariant all == seen + Walk(field[pos..], source, ordinal)
        invariant Trouble(field, |old(items)|) == Trouble(field[pos..], |items|)
        invariant overload' == OverloadOf(seen, overload)
      {
        var code := field[pos];
        FrontSteps(field, pos, source, ordinal, seen, |items|);
        if code == PAD {
          pos := pos + 1;
          continue;
        }
        if code == END {
          return;
        }
        if pos + 2 > |field| {
          warnings := warnings + [MissingLength(|items|, code)];
          Append(Item(code, source, ordinal, true, [], false));
          OverloadMore(seen, Item(code, source, ordinal, true, [], false), overload);
          return;
        }
        var declared := field[pos + 1];
        var avail := |field| - (pos + 2);
        var useLen, malformed := declared as nat, false;
        if declared > avail {
          useLen, malformed := avail, true;
        }
        var value := field[pos + 2..pos + 2 + useLen];
        var it := Item(code, source, ordinal, malformed, value, false);
        OverloadMore(seen, it, overload);
        Append(it);
        if code == OVERLOAD && useLen >= 1 {
          overload' := value[0];
        }
        ordinal := ordinal + 1;
        if malformed {
          assert value == field[pos + 2..];
          warnings := warnings + [LengthOverrun(|items| - 1, Context(value))];
          return;
        }
        seen := seen + [it];
        pos := pos + 2 + useLen;
      }
      FrontSteps(field, pos, source, ordinal, seen, |items|);
    }

    /** The walks of cf_dhcpv4_parse over the three fields. */
    method WalkFields(payload: seq<byte>)
      requires Valid() && items == [] && warnings == [] && |payload| >= FIXED_LEN
      modifies this
      ensures Valid() && Unmarked(items) && items == AllItems(payload) && warnings == AllTrouble(payload)
    {
      hide Valid;
      hide Walk;
      hide Trouble;
      var overload: byte := 0;
      NoOverload(0);
      if HasCookie(payload) {
        overload := WalkField(payload[OPTIONS_OFF..], Options, 0);
      }
      var ignored;
      if overload % 2 == 1 {
        ignored := WalkField(payload[FILE_OFF..FILE_OFF + FILE_LEN], File, 0);
      }
      if overload / 2 % 2 == 1 {
        ignored := WalkField(payload[SNAME_OFF..SNAME_OFF + SNAME_LEN], Sname, 0);
      }
      assert items == AllItems(payload);
      RawIsUnmarked(payload);
    }

    /** The inner fragment loop: how many items have the code. */
    method CountDupes(code: byte) returns (dupes: nat)
      ensures dupes == Times(items, code)
    {
      dupes := 0;
      for j := 0 to |items|
        invariant dupes == Times(items[..j], code)
      {
        assert items[..j + 1][..j] == items[..j];
        if items[j].code == code {
          dupes := dupes + 1;
        }
      }
      assert items[..|items|] == items;
    }

    /** The fragment loop of cf_dhcpv4_parse. */
    method MarkFragments()
      requires Valid() && Unmarked(items)
      modifies this`items
      ensures Valid() && Marked(items, old(items))
    {
      hide Valid;
      hide Times;
      ghost var was := items;
      for i := 0 to |items|
        invariant |items| == |was|
        invariant forall k :: 0 <= k < |items| ==>
                    items[k] == if k < i then was[k].(fragment := Times(was, was[k].code) > 1) else was[k]
      {
        SameCodesCount(items, was, items[i].code);
        var dupes := CountDupes(items[i].code);
        if dupes > 1 {
          items := items[i := items[i].(fragment := true)];
        }
      }
      CountsMark(items, was);
      StillValid(was);
    }

    twostate lemma StillValid(was: seq<Item>)
      requires old(Valid()) && was == old(items) && concat == old(concat)
      requires |items| == |was| && forall k :: 0 <= k < |items| ==> items[k].code == was[k].code && items[k].value == was[k].value
      ensures Valid()
    {
      forall code: byte ensures Joined(items, code) == Joined(was, code) && (Occurs(items, code) <==> Occurs(was, code)) {
        SameCodesJoin(items, was, code);
      }
    }

    /** cf_dhcpv4_parse up to the raw options; false for a message shorter than the fixed part. */
    method Parse(payload: seq<byte>) returns (ok: bool)
      requires Valid() && items == [] && warnings == []
      modifies this
      ensures Valid()
      ensures ok <==> |payload| >= FIXED_LEN
      ensures ok ==> Marked(items, AllItems(payload)) && warnings == AllTrouble(payload)
    {
      hide Valid;
      hide Marked;
      hide AllItems;
      hide AllTrouble;
      ok := |payload| >= FIXED_LEN;
      if ok {
        WalkFields(payload);
        MarkFragments();
      }
    }
  }

  /** The items of `raw`, each marked as a fragment exactly when another one has its code. */
  ghost predicate Marked(items: seq<Item>, raw: seq<Item>) {
    && |items| == |raw|
    && forall i :: 0 <= i < |items| ==>
         items[i] == raw[i].(fragment := exists j :: 0 <= j < |raw| && j != i && raw[j].code == raw[i].code)
  }

  predicate Unmarked(items: seq<Item>) {
    forall i :: 0 <= i < |items| ==> !items[i].fragment
  }

  lemma WalkIsUnmarked(field: seq<byte>, source: Source)
    ensures Unmarked(Walk(field, source, 0))
  {
    MalformedIsLast(field, source, 0, 0);
  }

  lemma UnmarkedConcat(a: seq<Item>, b: seq<Item>)
    requires Unmarked(a) && Unmarked(b)
    ensures Unmarked(a + b)
  {
  }

  lemma RawIsUnmarked(payload: seq<byte>)
    requires |payload| >= FIXED_LEN
    ensures Unmarked(AllItems(payload))
  {
    hide Walk;
    hide Unmarked;
    var a := OptionItems(payload);
    var v := OverloadOf(a, 0);
    NoneUnmarked();
    if HasCookie(payload) {
      WalkIsUnmarked(payload[OPTIONS_OFF..], Options);
    }
    WalkIsUnmarked(payload[FILE_OFF..FILE_OFF + FILE_LEN], File);
    WalkIsUnmarked(payload[SNAME_OFF..SNAME_OFF + SNAME_LEN], Sname);
    var b := if v % 2 == 1 then Walk(payload[FILE_OFF..FILE_OFF + FILE_LEN], File, 0) else [];
    var c := if v / 2 % 2 == 1 then Walk(payload[SNAME_OFF..SNAME_OFF + SNAME_LEN], Sname, 0) else [];
    UnmarkedConcat(a, b);
    UnmarkedConcat(a + b, c);
  }

  lemma NoneUnmarked()
    ensures Unmarked([])
  {
  }

  lemma {:induction false} SameCodesCount(a: seq<Item>, b: seq<Item>, code: byte)
    requires |a| == |b| && forall k :: 0 <= k < |a| ==> a[k].code == b[k].code
    ensures Times(a, code) == Times(b, code)
  {
    if a != [] {
      SameCodesCount(a[..|a| - 1], b[..|b| - 1], code);
    }
  }

  lemma CountsMark(items: seq<Item>, raw: seq<Item>)
    requires |items| == |raw|
    requires forall k :: 0 <= k < |items| ==> items[k] == raw[k].(fragment := Times(raw, raw[k].code) > 1)
    ensures Marked(items, raw)
  {
    hide Times;
    forall i | 0 <= i < |raw|
      ensures items[i] == raw[i].(fragment := exists j :: 0 <= j < |raw| && j != i && raw[j].code == raw[i].code)
    {
      TimesCounts(raw, i);
    }
  }

  lemma {:induction false} SameCodesJoin(a: seq<Item>, b: seq<Item>, code: byte)
    requires |a| == |b| && forall k :: 0 <= k < |a| ==> a[k].code == b[k].code && a[k].value == b[k].value
    ensures Joined(a, code) == Joined(b, code) && (Occurs(a, code) <==> Occurs(b, code))
  {
    if a != [] {
      SameCodesJoin(a[..|a| - 1], b[..|b| - 1], code);
    }
    if Occurs(a, code) {
      var i :| 0 <= i < |a| && a[i].code == code;
      assert b[i].code == code;
    }
    if Occurs(b, code) {
      var i :| 0 <= i < |b| && b[i].code == code;
      assert a[i].code == code;
    }
  }

  lemma NoOverload(before: byte)
    ensures OverloadOf([], before) == before
  {
  }

  /** What the rest of the walk adds to what has been seen, by what stands at pos. */
  lemma FrontSteps(field: seq<byte>, pos: nat, source: Source, ordinal: nat, seen: seq<Item>, index: nat)
    requires pos <= |field|
    ensures var here := field[pos..];
            var w, t := seen + Walk(here, source, ordinal), Trouble(here, index);
            match Front(here)
            case Stop => w == seen && t == []
            case Skip => w == seen + Walk(field[pos + 1..], source, ordinal) && t == Trouble(field[pos + 1..], index)
            case NoLength => w == seen + [Item(field[pos], source, ordinal, true, [], false)] && t == [MissingLength(index, field[pos])]
            case Overrun => w == seen + [Item(field[pos], source, ordinal, true, field[pos + 2..], false)]
                            && t == [LengthOverrun(index, Context(field[pos + 2..]))]
            case Whole(len) =>
              var it := Item(field[pos], source, ordinal, false, field[pos + 2..pos + 2 + len], false);
              && w == seen + [it] + Walk(field[pos + 2 + len..], source, ordinal + 1)
              && t == Trouble(field[pos + 2 + len..], index + 1)
  {
    hide Walk;
    hide Trouble;
    var here := field[pos..];
    WalkUnfolds(here, source, ordinal, index);
    match Front(here) {
      case Stop => assert seen + [] == seen;
      case Skip => assert here[1..] == field[pos + 1..];
      case Whole(len) =>
        assert here[2..2 + len] == field[pos + 2..pos + 2 + len] && here[2 + len..] == field[pos + 2 + len..];
        var it := Item(field[pos], source, ordinal, false, field[pos + 2..pos + 2 + len], false);
        assert seen + ([it] + Walk(here[2 + len..], source, ordinal + 1)) == seen + [it] + Walk(here[2 + len..], source, ordinal + 1);
      case Overrun => assert here[2..] == field[pos + 2..];
      case NoLength =>
    }
  }

  lemma WalkUnfolds(here: seq<byte>, source: Source, ordinal: nat, index: nat)
    ensures var w, t := Walk(here, source, ordinal), Trouble(here, index);
            match Front(here)
            case Stop => w == [] && t == []
            case Skip => w == Walk(here[1..], source, ordinal) && t == Trouble(here[1..], index)
            case NoLength => w == [Item(here[0], source, ordinal, true, [], false)] && t == [MissingLength(index, here[0])]
            case Overrun => w == [Item(here[0], source, ordinal, true, here[2..], false)] && t == [LengthOverrun(index, Context(here[2..]))]
            case Whole(len) =>
              && w == [Item(here[0], source, ordinal, false, here[2..2 + len], false)] + Walk(here[2 + len..], source, ordinal + 1)
              && t == Trouble(here[2 + len..], index + 1)
  {
  }

  lemma OverloadMore(items: seq<Item>, it: Item, before: byte)
    ensures OverloadOf(items + [it], before)
            == if it.code == OVERLOAD && it.value != [] then it.value[0] else OverloadOf(items, before)
  {
    assert (items + [it])[..|items|] == items;
  }

  lemma {:induction false} NotSeenIsEmpty(items: seq<Item>, code: byte)
    ensures !Occurs(items, code) ==> Joined(items, code) == []
  {
    if items != [] && !Occurs(items, code) {
      var init := items[..|items| - 1];
      assert items[|items| - 1].code != code;
      forall i | 0 <= i < |init| ensures init[i].code != code {
        assert items[i].code != code;
      }
      NotSeenIsEmpty(init, code);
    }
  }

  /** The item gives an overload value. */
  predicate Overloads(it: Item) {
    it.code == 52 && it.value != []
  }

  /** The overload value is the first byte of the last option 52 that has one. */
  lemma {:induction false} OverloadIsLast(items: seq<Item>, before: byte, i: nat)
    requires i <= |items| && (forall j :: i < j < |items| ==> !Overloads(items[j]))
    requires i < |items| ==> Overloads(items[i])
    requires i == |items| ==> forall j :: 0 <= j < |items| ==> !Overloads(items[j])
    ensures OverloadOf(items, before) == if i < |items| then items[i].value[0] else before
  {
    var n := |items| - 1;
    if items != [] && i != n {
      OverloadIsLast(items[..n], before, if i < n then i else n);
    }
  }

  /** What the map holds for a code after a parse: the code's values of the options field, then of the
      file field, then of the sname field, each in order. */
  lemma JoinedOverFields(payload: seq<byte>, items: seq<Item>, code: byte)
    requires |payload| >= FIXED_LEN && Marked(items, AllItems(payload))
    ensures var options := OptionItems(payload);
            var v := OverloadOf(options, 0);
            Joined(items, code)
            == Joined(options, code)
               + (if v % 2 == 1 then Joined(Walk(payload[FILE_OFF..FILE_OFF + FILE_LEN], File, 0), code) else [])
               + (if v / 2 % 2 == 1 then Joined(Walk(payload[SNAME_OFF..SNAME_OFF + SNAME_LEN], Sname, 0), code) else [])
  {
    hide Walk;
    hide Joined;
    var a := OptionItems(payload);
    var v := OverloadOf(a, 0);
    var b := if v % 2 == 1 then Walk(payload[FILE_OFF..FILE_OFF + FILE_LEN], File, 0) else [];
    var c := if v / 2 % 2 == 1 then Walk(payload[SNAME_OFF..SNAME_OFF + SNAME_LEN], Sname, 0) else [];
    NoneJoined(code);
    SameCodesJoin(items, AllItems(payload), code);
    JoinedConcat(a, b, code);
    JoinedConcat(a + b, c, code);
  }

  lemma NoneJoined(code: byte)
    ensures Joined([], code) == []
  {
  }
}
