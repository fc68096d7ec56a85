/** DNS name decompression (decode_name in cf_dns.c; section 4.1.4 of RFC 1035). */
module DnsName {
  import opened Bytes

  const MAX_NAME_OCTETS := 255
  const MAX_POINTER_JUMPS := 128
  const NAME_BUF := 512
  const DOT := 46

  type Label = seq<byte>

  // ---------------------------------------------------------------- wire form

  /** The 14-bit offset of the compression pointer at pos. */
  function PointerTarget(msg: seq<byte>, pos: nat): (t: nat)
    requires pos + 2 <= |msg|
  {
    (msg[pos] % 0x40) as int * 0x100 + msg[pos + 1] as int
  }

  /** msg holds, at pos, the name with these labels, written with exactly ptrs backward pointers. */
  ghost predicate EncodedAt(msg: seq<byte>, pos: nat, labels: seq<Label>, ptrs: nat)
    decreases |labels| + ptrs
  {
    && pos < |msg|
    && var len := msg[pos] as int;
       if len == 0 then labels == [] && ptrs == 0
       else if len < 0x40 then
         && labels != [] && pos + 1 + len <= |msg|
         && labels[0] == msg[pos + 1..pos + 1 + len]
         && EncodedAt(msg, pos + 1 + len, labels[1..], ptrs)
       else
         && len >= 0xC0 && ptrs > 0 && pos + 2 <= |msg|
         && PointerTarget(msg, pos) < pos
         && EncodedAt(msg, PointerTarget(msg, pos), labels, ptrs - 1)
  }

  /** Octets the labels count for: one length octet each plus their bytes, without the final zero. */
  function Octets(labels: seq<Label>): (n: nat) {
    if labels == [] then 0 else 1 + |labels[0]| + Octets(labels[1..])
  }

  // ---------------------------------------------------------------- presentation form

  function LowerByte(b: byte): byte {
    if 65 <= b <= 90 then b + 0x20 else b
  }

  function Lower(s: seq<byte>): (r: seq<byte>)
    ensures |r| == |s|
  {
    seq(|s|, i requires 0 <= i < |s| => LowerByte(s[i]))
  }

  function Shown(lowercase: bool, l: Label): (r: Label)
    ensures |r| == |l|
  {
    if lowercase then Lower(l) else l
  }

  /** Labels joined by dots, without a trailing dot. */
  function Text(lowercase: bool, labels: seq<Label>): (t: seq<byte>) {
    if labels == [] then []
    else if |labels| == 1 then Shown(lowercase, labels[0])
    else Text(lowercase, labels[..|labels| - 1]) + [DOT] + Shown(lowercase, labels[|labels| - 1])
  }

  lemma {:induction false} OctetsAppend(labels: seq<Label>, l: Label)
    ensures Octets(labels + [l]) == Octets(labels) + 1 + |l|
  {
    if labels == [] {
      assert [] + [l] == [l];
    } else {
      assert (labels + [l])[1..] == labels[1..] + [l];
      OctetsAppend(labels[1..], l);
    }
  }

  /** The presentation form is one byte shorter than the octet count, so it never fills the buffer. */
  lemma {:induction false} TextLength(lowercase: bool, labels: seq<Label>)
    ensures |Text(lowercase, labels)| == if labels == [] then 0 else Octets(labels) - 1
  {
    if |labels| > 1 {
      var init, last := labels[..|labels| - 1], labels[|labels| - 1];
      assert labels == init + [last];
      TextLength(lowercase, init);
      OctetsAppend(init, last);
    }
  }

  lemma TextAppend(lowercase: bool, labels: seq<Label>, l: Label)
    ensures Text(lowercase, labels + [l])
            == (if labels == [] then [] else Text(lowercase, labels) + [DOT]) + Shown(lowercase, l)
  {
    if labels == [] {
      assert labels + [l] == [l];
    } else {
      assert (labels + [l])[..|labels|] == labels;
    }
  }

  // ---------------------------------------------------------------- decoding

  /** ok, and the labels decoded (up to the malformation when not ok). */
  datatype Decoded = Decoded(ok: bool, labels: seq<Label>)

  function Decode(msg: seq<byte>, pos: nat, octets: nat, jumps: nat): (d: Decoded)
    requires jumps <= MAX_POINTER_JUMPS
    decreases MAX_POINTER_JUMPS - jumps, |msg| - pos
  {
    if pos >= |msg| then Decoded(false, [])
    else
      var len := msg[pos] as int;
      if len == 0 then Decoded(true, [])
      else if len < 0x40 then
        if pos + 1 + len > |msg| || octets + len + 1 > MAX_NAME_OCTETS then Decoded(false, [])
        else
          var rest := Decode(msg, pos + 1 + len, octets + len + 1, jumps);
          Decoded(rest.ok, [msg[pos + 1..pos + 1 + len]] + rest.labels)
      else if len >= 0xC0 then
        if pos + 2 > |msg| || PointerTarget(msg, pos) >= pos || jumps + 1 > MAX_POINTER_JUMPS then Decoded(false, [])
        else Decode(msg, PointerTarget(msg, pos), octets, jumps + 1)
      else Decoded(false, [])
  }

  /** How far the parse cursor advances past the name at pos: through the first pointer or the
      terminating zero; 0 when a malformation comes first. */
  function Advance(msg: seq<byte>, pos: nat, octets: nat): (n: nat)
    ensures n > 0 ==> pos + n <= |msg|
    decreases |msg| - pos
  {
    if pos >= |msg| then 0
    else
      var len := msg[pos] as int;
      if len == 0 then 1
      else if len < 0x40 then
        if pos + 1 + len > |msg| || octets + len + 1 > MAX_NAME_OCTETS then 0
        else
          var rest := Advance(msg, pos + 1 + len, octets + len + 1);
          if rest == 0 then 0 else 1 + len + rest
      else if len >= 0xC0 && pos + 2 <= |msg| then 2
      else 0
  }

  lemma EmptyName(lowercase: bool)
    ensures Text(lowercase, []) == [] && Octets([]) == 0
  {
  }

  lemma DecodeUnfolds(msg: seq<byte>, pos: nat, octets: nat, jumps: nat)
    requires jumps <= MAX_POINTER_JUMPS
    ensures var d, adv := Decode(msg, pos, octets, jumps), Advance(msg, pos, octets);
            if pos >= |msg| then d == Decoded(false, []) && adv == 0
            else
              var len := msg[pos] as int;
              if len == 0 then d == Decoded(true, []) && adv == 1
              else if len < 0x40 then
                if pos + 1 + len > |msg| || octets + len + 1 > MAX_NAME_OCTETS then d == Decoded(false, []) && adv == 0
                else
                  var rest, more := Decode(msg, pos + 1 + len, octets + len + 1, jumps), Advance(msg, pos + 1 + len, octets + len + 1);
                  && d == Decoded(rest.ok, [msg[pos + 1..pos + 1 + len]] + rest.labels)
                  && adv == if more == 0 then 0 else 1 + len + more
              else if len >= 0xC0 then
                && adv == (if pos + 2 <= |msg| then 2 else 0)
                && d == if pos + 2 > |msg| || PointerTarget(msg, pos) >= pos || jumps + 1 > MAX_POINTER_JUMPS then Decoded(false, [])
                        else Decode(msg, PointerTarget(msg, pos), octets, jumps + 1)
              else d == Decoded(false, []) && adv == 0
  {
  }

  /** decode_name: fills out with the NUL-terminated presentation form. */
  method DecodeName(msg: seq<byte>, start: nat, lowercase: bool, out: array<byte>) returns (ok: bool, consumed: nat)
    requires out.Length == NAME_BUF
    modifies out
    ensures var d := Decode(msg, start, 0, 0);
            var text := Text(lowercase, d.labels);
            && ok == d.ok
            && |text| <= 254
            && out[..|text|] == text && out[|text|] == 0
    ensures consumed == Advance(msg, start, 0)
    ensures ok ==> consumed > 0
  {
    hide Text;
    hide Octets;
    hide Decode;
    hide Advance;
    EmptyName(lowercase);
    ghost var goal := Decode(msg, start, 0, 0);
    ghost var done: seq<Label> := [];
    var pos: nat, outLen: nat, nameOctets: nat, jumps: nat := start, 0, 0, 0;
    var firstPtrSeen, firstLabel := false, true;
    out[0] := 0;
    consumed := 0;
    ok := false;
    while true
      invariant jumps <= MAX_POINTER_JUMPS && nameOctets == Octets(done) <= MAX_NAME_OCTETS
      invariant firstLabel <==> done == []
      invariant outLen == |Text(lowercase, done)| <= 254 && out[..outLen] == Text(lowercase, done)
      invariant goal == Decoded(Decode(msg, pos, nameOctets, jumps).ok, done + Decode(msg, pos, nameOctets, jumps).labels)
      invariant firstPtrSeen ==> consumed == Advance(msg, start, 0) > 0
      invariant !firstPtrSeen ==>
                  && consumed == 0 && pos >= start
                  && Advance(msg, start, 0) == var rest := Advance(msg, pos, nameOctets); if rest == 0 then 0 else pos - start + rest
      invariant !ok
      decreases MAX_POINTER_JUMPS - jumps, |msg| - pos
    {
      DecodeUnfolds(msg, pos, nameOctets, jumps);
      if pos >= |msg| {
        break;
      }
      var labelLen := msg[pos] as int;
      if labelLen < 0x40 {
        if labelLen == 0 {
          if !firstPtrSeen {
            consumed := pos + 1 - start;
          }
          ok := true;
          assert done + [] == done;
          break;
        }
        if pos + 1 + labelLen > |msg| {
          break;
        }
        if nameOctets + labelLen + 1 > MAX_NAME_OCTETS {
          break;
        }
        ghost var l := msg[pos + 1..pos + 1 + labelLen];
        ghost var rest := Decode(msg, pos + 1 + labelLen, nameOctets + labelLen + 1, jumps);
        assert done + ([l] + rest.labels) == (done + [l]) + rest.labels;
        nameOctets := nameOctets + labelLen + 1;
        outLen := AppendLabel(msg, pos, labelLen, lowercase, out, outLen, firstLabel, done);
        firstLabel := false;
        done := done + [l];
        pos := pos + 1 + labelLen;
        continue;
      }
      if labelLen >= 0xC0 {
        if pos + 2 > |msg| {
          break;
        }
        var target := PointerTarget(msg, pos);
        if !firstPtrSeen {
          firstPtrSeen := true;
          consumed := pos + 2 - start;
        }
        if target >= pos {
          break;
        }
        jumps := jumps + 1;
        if jumps > MAX_POINTER_JUMPS {
          break;
        }
        pos := target;
        continue;
      }
      break;
    }
    assert done + [] == done;
    out[outLen] := 0;
  }

  /** The dot, unless this is the first label, and the bytes of the label. */
  method AppendLabel(msg: seq<byte>, pos: nat, labelLen: nat, lowercase: bool, out: array<byte>, from: nat,
                     first: bool, ghost done: seq<Label>) returns (outLen: nat)
    requires pos + 1 + labelLen <= |msg| && out.Length == NAME_BUF && Octets(done) + 1 + labelLen <= MAX_NAME_OCTETS
    requires from == |Text(lowercase, done)| <= NAME_BUF && out[..from] == Text(lowercase, done) && (first <==> done == [])
    modifies out
    ensures var all := done + [msg[pos + 1..pos + 1 + labelLen]];
            && Octets(all) == Octets(done) + 1 + labelLen
            && outLen == |Text(lowercase, all)| == Octets(all) - 1
            && out[..outLen] == Text(lowercase, all)
  {
    ghost var l := msg[pos + 1..pos + 1 + labelLen];
    TextLength(lowercase, done);
    TextAppend(lowercase, done, l);
    OctetsAppend(done, l);
    TextLength(lowercase, done + [l]);
    outLen := from;
    if !first && outLen + 1 < NAME_BUF {
      out[outLen] := DOT;
      outLen := outLen + 1;
    }
    assert out[..outLen] == (if done == [] then [] else Text(lowercase, done) + [DOT]);
    outLen := CopyLabel(msg, pos, labelLen, lowercase, out, outLen);
  }

  /** The byte loop of one label. */
  method CopyLabel(msg: seq<byte>, pos: nat, labelLen: nat, lowercase: bool, out: array<byte>, from: nat) returns (outLen: nat)
    requires pos + 1 + labelLen <= |msg| && from + labelLen + 1 < out.Length == NAME_BUF
    modifies out
    ensures outLen == from + labelLen
    ensures out[..outLen] == old(out[..from]) + Shown(lowercase, msg[pos + 1..pos + 1 + labelLen])
  {
    outLen := from;
    ghost var before, shown := out[..from], Shown(lowercase, msg[pos + 1..pos + 1 + labelLen]);
    var i := 0;
    while i < labelLen && outLen + 1 < NAME_BUF
      invariant i <= labelLen && outLen == from + i
      invariant out[..outLen] == before + shown[..i]
    {
      assert shown[..i + 1] == shown[..i] + [shown[i]];
      var c := msg[pos + 1 + i];
      if lowercase && 65 <= c <= 90 {
        c := c + 0x20;
      }
      out[outLen] := c;
      outLen := outLen + 1;
      i := i + 1;
    }
  }

  // ---------------------------------------------------------------- correctness

  lemma {:induction false} DecodeComplete(msg: seq<byte>, pos: nat, labels: seq<Label>, ptrs: nat, octets: nat, jumps: nat)
    requires EncodedAt(msg, pos, labels, ptrs)
    requires octets + Octets(labels) <= MAX_NAME_OCTETS && jumps + ptrs <= MAX_POINTER_JUMPS
    ensures Decode(msg, pos, octets, jumps) == Decoded(true, labels)
    decreases |labels| + ptrs
  {
    var len := msg[pos] as int;
    if len == 0 {
    } else if len < 0x40 {
      DecodeComplete(msg, pos + 1 + len, labels[1..], ptrs, octets + len + 1, jumps);
      assert labels == [labels[0]] + labels[1..];
    } else {
      DecodeComplete(msg, PointerTarget(msg, pos), labels, ptrs - 1, octets, jumps + 1);
    }
  }

  lemma {:induction false} DecodeSound(msg: seq<byte>, pos: nat, octets: nat, jumps: nat) returns (ptrs: nat)
    requires jumps <= MAX_POINTER_JUMPS && octets <= MAX_NAME_OCTETS && Decode(msg, pos, octets, jumps).ok
    ensures EncodedAt(msg, pos, Decode(msg, pos, octets, jumps).labels, ptrs)
    ensures octets + Octets(Decode(msg, pos, octets, jumps).labels) <= MAX_NAME_OCTETS && jumps + ptrs <= MAX_POINTER_JUMPS
    decreases MAX_POINTER_JUMPS - jumps, |msg| - pos
  {
    var len := msg[pos] as int;
    if len == 0 {
      ptrs := 0;
    } else if len < 0x40 {
      ptrs := DecodeSound(msg, pos + 1 + len, octets + len + 1, jumps);
      var d := Decode(msg, pos, octets, jumps);
      assert d.labels[1..] == Decode(msg, pos + 1 + len, octets + len + 1, jumps).labels;
    } else {
      ptrs := DecodeSound(msg, PointerTarget(msg, pos), octets, jumps + 1);
      ptrs := ptrs + 1;
    }
  }

  /** The message holds the name at pos within the decoder's limit on pointers. */
  ghost predicate Held(msg: seq<byte>, pos: nat, labels: seq<Label>) {
    exists ptrs: nat :: EncodedAt(msg, pos, labels, ptrs) && ptrs <= 128
  }

  /** Decoding succeeds with these labels exactly when the message holds them at that offset, within
      255 octets and 128 strictly backward pointers. */
  lemma {:induction false} DecodesExactlyTheEncodedName(msg: seq<byte>, pos: nat, labels: seq<Label>)
    ensures Decode(msg, pos, 0, 0) == Decoded(true, labels) <==> Octets(labels) <= 255 && Held(msg, pos, labels)
  {
    if Decode(msg, pos, 0, 0) == Decoded(true, labels) {
      var ptrs := DecodeSound(msg, pos, 0, 0);
      assert EncodedAt(msg, pos, labels, ptrs);
    }
    if Octets(labels) <= MAX_NAME_OCTETS && Held(msg, pos, labels) {
      var ptrs: nat :| EncodedAt(msg, pos, labels, ptrs) && ptrs <= MAX_POINTER_JUMPS;
      DecodeComplete(msg, pos, labels, ptrs, 0, 0);
    }
  }

  // ---------------------------------------------------------------- encoders

  ghost predicate ValidLabels(labels: seq<Label>) {
    forall i :: 0 <= i < |labels| ==> 1 <= |labels[i]| < 0x40
  }

  /** Length octet and bytes of each label. */
  function LabelBytes(labels: seq<Label>): (s: seq<byte>)
    requires ValidLabels(labels)
    ensures |s| == Octets(labels)
  {
    if labels == [] then [] else [|labels[0]|] + labels[0] + LabelBytes(labels[1..])
  }

  /** The name without compression. */
  function Uncompressed(labels: seq<Label>): (s: seq<byte>)
    requires ValidLabels(labels)
  {
    LabelBytes(labels) + [0]
  }

  function PointerTo(target: nat): (s: seq<byte>)
    requires target < 0x4000
  {
    [0xC0 + target / 0x100, target % 0x100]
  }

  lemma {:induction false} EncodedAtExtends(msg: seq<byte>, more: seq<byte>, pos: nat, labels: seq<Label>, ptrs: nat)
    requires EncodedAt(msg, pos, labels, ptrs)
    ensures EncodedAt(msg + more, pos, labels, ptrs)
    decreases |labels| + ptrs
  {
    var len := msg[pos] as int;
    var ext := msg + more;
    assert ext[pos] == msg[pos];
    if len == 0 {
    } else if len < 0x40 {
      EncodedAtExtends(msg, more, pos + 1 + len, labels[1..], ptrs);
      assert ext[pos + 1..pos + 1 + len] == msg[pos + 1..pos + 1 + len];
    } else {
      assert ext[pos + 1] == msg[pos + 1];
      EncodedAtExtends(msg, more, PointerTarget(msg, pos), labels, ptrs - 1);
    }
  }

  /** msg holds the label bytes at pos. */
  ghost predicate LabelsAt(msg: seq<byte>, pos: nat, labels: seq<Label>)
    requires ValidLabels(labels)
  {
    pos + Octets(labels) <= |msg| && msg[pos..pos + Octets(labels)] == LabelBytes(labels)
  }

  lemma {:induction false} FirstLabelAt(msg: seq<byte>, pos: nat, labels: seq<Label>)
    requires ValidLabels(labels) && labels != [] && LabelsAt(msg, pos, labels)
    ensures var n := |labels[0]|;
            && pos + 1 + n <= |msg| && msg[pos] == n && msg[pos + 1..pos + 1 + n] == labels[0]
            && ValidLabels(labels[1..]) && LabelsAt(msg, pos + 1 + n, labels[1..])
  {
    var n := |labels[0]|;
    var t := LabelBytes(labels[1..]);
    var b := msg[pos..pos + Octets(labels)];
    assert b == [n] + labels[0] + t;
    assert b[0] == n && b[1..1 + n] == labels[0] && b[1 + n..] == t;
    assert msg[pos + 1..pos + 1 + n] == msg[pos..pos + Octets(labels)][1..1 + n];
    assert msg[pos + 1 + n..pos + 1 + n + |t|] == b[1 + n..];
  }

  lemma {:induction false} LabelsAppended(msg: seq<byte>, labels: seq<Label>, more: seq<byte>)
    requires ValidLabels(labels)
    ensures LabelsAt(msg + LabelBytes(labels) + more, |msg|, labels)
  {
  }

  /** Labels written at pos in front of a name already encoded right behind them. */
  lemma {:induction false} LabelsThenName(msg: seq<byte>, pos: nat, labels: seq<Label>, rest: seq<Label>, ptrs: nat)
    requires ValidLabels(labels) && LabelsAt(msg, pos, labels)
    requires EncodedAt(msg, pos + Octets(labels), rest, ptrs)
    ensures EncodedAt(msg, pos, labels + rest, ptrs)
    decreases |labels|
  {
    hide LabelsAt;
    hide EncodedAt;
    if labels == [] {
      assert labels + rest == rest;
    } else {
      FirstLabelAt(msg, pos, labels);
      LabelsThenName(msg, pos + 1 + |labels[0]|, labels[1..], rest, ptrs);
      LabelThenName(msg, pos, labels[0], labels[1..] + rest, ptrs);
      assert [labels[0]] + (labels[1..] + rest) == labels + rest;
    }
  }

  lemma LabelThenName(msg: seq<byte>, pos: nat, l: Label, more: seq<Label>, ptrs: nat)
    requires 1 <= |l| < 0x40 && pos + 1 + |l| <= |msg| && msg[pos] == |l| && msg[pos + 1..pos + 1 + |l|] == l
    requires EncodedAt(msg, pos + 1 + |l|, more, ptrs)
    ensures EncodedAt(msg, pos, [l] + more, ptrs)
  {
    assert ([l] + more)[1..] == more;
  }

  lemma {:induction false} PointerAt(msg: seq<byte>, target: nat, labels: seq<Label>, suffix: seq<Label>, ptrs: nat)
    requires ValidLabels(labels) && target < 0x4000 && EncodedAt(msg, target, suffix, ptrs)
    ensures EncodedAt(msg + LabelBytes(labels) + PointerTo(target), |msg| + Octets(labels), suffix, ptrs + 1)
  {
    var all := msg + LabelBytes(labels) + PointerTo(target);
    var p := |msg| + Octets(labels);
    assert all == msg + (LabelBytes(labels) + PointerTo(target));
    EncodedAtExtends(msg, LabelBytes(labels) + PointerTo(target), target, suffix, ptrs);
    assert all[p] == PointerTo(target)[0] && all[p + 1] == PointerTo(target)[1];
    assert PointerTarget(all, p) == target;
  }

  /** Appending a name whose suffix is replaced by a pointer to an earlier copy of it. */
  lemma {:induction false} AppendCompressed(msg: seq<byte>, target: nat, labels: seq<Label>, suffix: seq<Label>, ptrs: nat)
    requires ValidLabels(labels) && target < 0x4000 && EncodedAt(msg, target, suffix, ptrs)
    ensures EncodedAt(msg + LabelBytes(labels) + PointerTo(target), |msg|, labels + suffix, ptrs + 1)
  {
    PointerAt(msg, target, labels, suffix, ptrs);
    LabelsAppended(msg, labels, PointerTo(target));
    LabelsThenName(msg + LabelBytes(labels) + PointerTo(target), |msg|, labels, suffix, ptrs + 1);
  }

  /** Appending a name without compression. */
  lemma {:induction false} AppendUncompressed(msg: seq<byte>, labels: seq<Label>)
    requires ValidLabels(labels)
    ensures EncodedAt(msg + LabelBytes(labels) + [0], |msg|, labels, 0)
  {
    var all := msg + LabelBytes(labels) + [0];
    var p := |msg| + Octets(labels);
    assert all[p] == 0;
    assert EncodedAt(all, p, [], 0);
    LabelsAppended(msg, labels, [0]);
    LabelsThenName(all, |msg|, labels, [], 0);
    assert labels + [] == labels;
  }

  /** Compression is invisible: a name written with any suffix replaced by a strictly backward pointer
      (itself possibly compressed) decodes to what its uncompressed form decodes to. */
  lemma {:induction false} CompressionPreservesName(msg: seq<byte>, target: nat, labels: seq<Label>, suffix: seq<Label>, ptrs: nat)
    requires ValidLabels(labels) && ValidLabels(suffix) && target < 0x4000
    requires EncodedAt(msg, target, suffix, ptrs) && ptrs < MAX_POINTER_JUMPS
    requires Octets(labels + suffix) <= MAX_NAME_OCTETS
    ensures Decode(msg + LabelBytes(labels) + PointerTo(target), |msg|, 0, 0) == Decoded(true, labels + suffix)
    ensures Decode(Uncompressed(labels + suffix), 0, 0, 0) == Decoded(true, labels + suffix)
  {
    AppendCompressed(msg, target, labels, suffix, ptrs);
    DecodeComplete(msg + LabelBytes(labels) + PointerTo(target), |msg|, labels + suffix, ptrs + 1, 0, 0);
    AppendUncompressed([], labels + suffix);
    assert [] + LabelBytes(labels + suffix) + [0] == Uncompressed(labels + suffix);
    DecodeComplete(Uncompressed(labels + suffix), 0, labels + suffix, 0, 0, 0);
  }

  /** Without compression a name is accepted exactly when it takes at most 256 octets on the wire, one
      more than section 2.3.4 of RFC 1035 allows: the limit of 255 leaves out the final zero. */
  lemma {:induction false} UncompressedDecodesIff(labels: seq<Label>)
    requires ValidLabels(labels)
    ensures Decode(Uncompressed(labels), 0, 0, 0) == Decoded(true, labels) <==> |Uncompressed(labels)| <= 256
  {
    var msg := Uncompressed(labels);
    assert [] + LabelBytes(labels) + [0] == msg;
    AppendUncompressed([], labels);
    assert Held(msg, 0, labels);
    DecodesExactlyTheEncodedName(msg, 0, labels);
  }

  /** Three labels of 63 bytes and one of 62 make such a name. */
  lemma OverlongNameAccepted(long: Label, last: Label)
    requires |long| == 63 && |last| == 62
    ensures var labels := [long, long, long, last];
            && ValidLabels(labels) && |Uncompressed(labels)| == 256
            && Decode(Uncompressed(labels), 0, 0, 0) == Decoded(true, labels)
  {
    var labels := [long, long, long, last];
    assert labels[1..] == [long, long, last] && labels[1..][1..] == [long, last] && labels[1..][1..][1..] == [last];
    assert Octets([last]) == 63 && Octets([long, last]) == 127 && Octets([long, long, last]) == 191 by {
      assert [last][1..] == [] && [long, last][1..] == [last] && [long, long, last][1..] == [long, last];
    }
    UncompressedDecodesIff(labels);
  }

  /** The parse cursor passes the labels actually written here plus the two pointer octets, never the
      octets the pointer jumps to; without a pointer it passes the whole name and its final zero. */
  lemma {:induction false} CursorSpansWrittenBytes(msg: seq<byte>, target: nat, labels: seq<Label>)
    requires ValidLabels(labels) && target < 0x4000 && Octets(labels) <= MAX_NAME_OCTETS
    ensures Advance(msg + LabelBytes(labels) + PointerTo(target), |msg|, 0) == Octets(labels) + 2
    ensures Advance(msg + LabelBytes(labels) + [0], |msg|, 0) == Octets(labels) + 1
  {
    var p := |msg| + Octets(labels);
    var c, u := msg + LabelBytes(labels) + PointerTo(target), msg + LabelBytes(labels) + [0];
    assert c[p] == PointerTo(target)[0] && u[p] == 0;
    LabelsAppended(msg, labels, PointerTo(target));
    LabelsAppended(msg, labels, [0]);
    AdvanceThroughLabels(c, |msg|, labels, 0, 2);
    AdvanceThroughLabels(u, |msg|, labels, 0, 1);
  }

  /** The cursor passes whole labels and then whatever stops them. */
  lemma {:induction false} AdvanceThroughLabels(msg: seq<byte>, pos: nat, labels: seq<Label>, octets: nat, stop: nat)
    requires ValidLabels(labels) && LabelsAt(msg, pos, labels) && stop > 0
    requires octets + Octets(labels) <= MAX_NAME_OCTETS
    requires Advance(msg, pos + Octets(labels), octets + Octets(labels)) == stop
    ensures Advance(msg, pos, octets) == Octets(labels) + stop
    decreases |labels|
  {
    hide LabelsAt;
    hide LabelBytes;
    if labels != [] {
      FirstLabelAt(msg, pos, labels);
      AdvanceThroughLabels(msg, pos + 1 + |labels[0]|, labels[1..], octets + |labels[0]| + 1, stop);
    }
  }

  /** The same byte, or a capital letter and its small letter. */
  predicate SameLetter(x: byte, y: byte) {
    x == y || (65 <= x <= 90 && y == x + 32) || (65 <= y <= 90 && x == y + 32)
  }

  predicate SameLetters(a: seq<byte>, b: seq<byte>) {
    |a| == |b| && forall i :: 0 <= i < |a| ==> SameLetter(a[i], b[i])
  }

  /** The names have the same labels up to ASCII case. */
  predicate SameUpToCase(a: seq<Label>, b: seq<Label>) {
    |a| == |b| && forall i :: 0 <= i < |a| ==> SameLetters(a[i], b[i])
  }

  predicate NoCapital(s: seq<byte>) {
    forall i :: 0 <= i < |s| ==> !(65 <= s[i] <= 90)
  }

  /** Lower-casing removes the capitals, leaves everything else alone, and identifies exactly the texts
      that differ in case. */
  lemma LowerIffSameLetters(a: seq<byte>, b: seq<byte>)
    ensures NoCapital(Lower(a)) && SameLetters(a, Lower(a)) && (NoCapital(a) ==> Lower(a) == a)
    ensures Lower(a) == Lower(b) <==> SameLetters(a, b)
  {
    if Lower(a) == Lower(b) {
      forall i | 0 <= i < |a| ensures SameLetter(a[i], b[i]) {
        assert Lower(a)[i] == Lower(b)[i];
      }
    }
  }

  /** 0x20 case randomisation is invisible: names equal up to ASCII case read alike. */
  lemma {:induction false} CaseInsensitive(a: seq<Label>, b: seq<Label>)
    requires SameUpToCase(a, b)
    ensures Text(true, a) == Text(true, b)
  {
    if a != [] {
      var n := |a| - 1;
      LowerIffSameLetters(a[n], b[n]);
      if n > 0 {
        CaseInsensitive(a[..n], b[..n]);
      }
    }
  }

  /** The lower-case form holds no capital, and is the plain form when that holds none. */
  lemma {:induction false} LowerTextIsLower(labels: seq<Label>)
    ensures NoCapital(Text(true, labels)) && SameLetters(Text(false, labels), Text(true, labels))
    ensures NoCapital(Text(false, labels)) ==> Text(true, labels) == Text(false, labels)
  {
    if labels != [] {
      var n := |labels| - 1;
      LowerIffSameLetters(labels[n], labels[n]);
      if n > 0 {
        LowerTextIsLower(labels[..n]);
      }
      var t, u := Text(false, labels), Text(true, labels);
      if NoCapital(t) {
        forall i | 0 <= i < |t| ensures u[i] == t[i] {
          assert SameLetter(t[i], u[i]);
        }
      }
    }
  }

  /** What a reader of the dotted form takes for labels. */
  function SplitDots(t: seq<byte>): (labels: seq<Label>)
    ensures |labels| >= 1
  {
    if t == [] then [[]]
    else
      var rest := SplitDots(t[1..]);
      if t[0] == DOT then [[]] + rest else [[t[0]] + rest[0]] + rest[1..]
  }

  lemma {:induction false} SplitDotsLast(x: seq<byte>, l: Label)
    requires DOT !in l
    ensures SplitDots(x + [DOT] + l) == SplitDots(x) + [l]
    ensures SplitDots(l) == [l]
  {
    if x != [] {
      assert (x + [DOT] + l)[1..] == x[1..] + [DOT] + l;
      SplitDotsLast(x[1..], l);
    } else {
      SplitDotsNone(l);
      assert ([] + [DOT] + l)[1..] == l;
    }
  }

  lemma {:induction false} SplitDotsNone(l: Label)
    requires DOT !in l
    ensures SplitDots(l) == [l]
  {
    if l != [] {
      SplitDotsNone(l[1..]);
      assert [l[0]] + l[1..] == l;
    }
  }

  /** Split at its dots, the dotted form gives back the labels, when none of them holds a dot. */
  lemma {:induction false} TextSplitsBack(labels: seq<Label>)
    requires labels != [] && forall i :: 0 <= i < |labels| ==> DOT !in labels[i]
    ensures SplitDots(Text(false, labels)) == labels
  {
    var n := |labels| - 1;
    if n == 0 {
      SplitDotsNone(labels[0]);
    } else {
      TextSplitsBack(labels[..n]);
      SplitDotsLast(Text(false, labels[..n]), labels[n]);
      assert labels == labels[..n] + [labels[n]];
    }
  }

  /** No label is empty or holds a NUL or a dot. */
  predicate Ordinary(labels: seq<Label>) {
    forall i :: 0 <= i < |labels| ==> labels[i] != [] && 0 !in labels[i] && DOT !in labels[i]
  }

  lemma LowerKeepsOut(s: seq<byte>)
    ensures 0 !in s ==> 0 !in Lower(s)
    ensures DOT !in s ==> DOT !in Lower(s)
  {
    assert forall i :: 0 <= i < |s| ==> (Lower(s)[i] == 0 ==> s[i] == 0) && (Lower(s)[i] == DOT ==> s[i] == DOT);
  }

  lemma LaterDot(x: seq<byte>, l: seq<byte>, y: seq<byte>, m: seq<byte>)
    requires x + [DOT] + l == y + [DOT] + m && |x| < |y|
    ensures DOT in l
  {
    assert (y + [DOT] + m)[|y|] == DOT;
    assert (x + [DOT] + l)[|y|] == l[|y| - |x| - 1];
  }

  lemma TextHasDot(labels: seq<Label>)
    requires |labels| > 1
    ensures DOT in Text(true, labels)
  {
    assert Text(true, labels)[|Text(true, labels[..|labels| - 1])|] == DOT;
  }

  /** What stands behind the last dot, and what before it. */
  lemma LastDotSplits(x: seq<byte>, l: seq<byte>, y: seq<byte>, m: seq<byte>)
    requires x + [DOT] + l == y + [DOT] + m && DOT !in l && DOT !in m
    ensures x == y && l == m
  {
    var t := x + [DOT] + l;
    if |x| < |y| {
      LaterDot(x, l, y, m);
    } else if |y| < |x| {
      LaterDot(y, m, x, l);
    }
    assert x == t[..|x|] && l == t[|x| + 1..] && y == t[..|y|] && m == t[|y| + 1..];
  }

  lemma {:induction false} NoNulInText(labels: seq<Label>)
    requires Ordinary(labels)
    ensures 0 !in Text(true, labels)
  {
    if labels != [] {
      var n := |labels| - 1;
      NoNulInText(labels[..n]);
      LowerKeepsOut(labels[n]);
    }
  }

  /** The dotted form of ordinary names determines their labels up to case. */
  lemma {:induction false} TextInjective(a: seq<Label>, b: seq<Label>)
    requires Ordinary(a) && Ordinary(b) && Text(true, a) == Text(true, b)
    ensures SameUpToCase(a, b)
  {
    TextLength(true, a);
    TextLength(true, b);
    if a != [] && b != [] {
      var m, n := |a| - 1, |b| - 1;
      LowerKeepsOut(a[m]);
      LowerKeepsOut(b[n]);
      LowerIffSameLetters(a[m], b[n]);
      if m > 0 && n > 0 {
        LastDotSplits(Text(true, a[..m]), Lower(a[m]), Text(true, b[..n]), Lower(b[n]));
        TextInjective(a[..m], b[..n]);
      } else if m > 0 {
        TextHasDot(a);
      } else if n > 0 {
        TextHasDot(b);
      }
    }
  }

  /** A name on the wire has no empty label. */
  lemma {:induction false} EncodedLabelsAreFull(msg: seq<byte>, pos: nat, labels: seq<Label>, ptrs: nat)
    requires EncodedAt(msg, pos, labels, ptrs)
    ensures forall i :: 0 <= i < |labels| ==> labels[i] != []
    decreases |labels| + ptrs
  {
    var len := msg[pos] as int;
    if 0 < len < 0x40 {
      EncodedLabelsAreFull(msg, pos + 1 + len, labels[1..], ptrs);
      assert forall i :: 1 <= i < |labels| ==> labels[i] == labels[1..][i - 1];
    } else if len >= 0xC0 {
      EncodedLabelsAreFull(msg, PointerTarget(msg, pos), labels, ptrs - 1);
    }
  }

  /** A failed decode still advances the cursor only within the message. */
  lemma AdvanceStaysInside(msg: seq<byte>, pos: nat)
    requires pos <= |msg|
    ensures pos + Advance(msg, pos, 0) <= |msg|
    ensures Decode(msg, pos, 0, 0).ok ==> Advance(msg, pos, 0) > 0
  {
    if Decode(msg, pos, 0, 0).ok {
      OkAdvances(msg, pos, 0, 0);
    }
  }

  lemma {:induction false} OkAdvances(msg: seq<byte>, pos: nat, octets: nat, jumps: nat)
    requires jumps <= MAX_POINTER_JUMPS && Decode(msg, pos, octets, jumps).ok
    ensures Advance(msg, pos, octets) > 0
    decreases |msg| - pos
  {
    var len := msg[pos] as int;
    if 0 < len < 0x40 {
      OkAdvances(msg, pos + 1 + len, octets + len + 1, jumps);
    }
  }
}
