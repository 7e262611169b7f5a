/**
  Python's `bytes.decode()` with its default codec, strict UTF-8: the
  well-formed byte sequences of Table 3-7 of the Unicode Standard, section 3.9
  (no overlong forms, no surrogates, nothing above U+10FFFF).
 */
module Utf8 {
  import opened Wrappers
  import opened Text

  newtype byte = b: int | 0 <= b < 256

  predicate IsContinuation(b: byte) {
    0x80 <= b <= 0xBF
  }

  /** The scalar value and length of the well-formed sequence at the head of `s`, if there is one. */
  function DecodeFirst(s: seq<byte>): (r: Option<(char, nat)>)
    ensures r.Some? ==> 1 <= r.value.1 <= |s|
  {
    if |s| == 0 then None
    else
      var b0 := s[0] as int;
      if b0 <= 0x7F then
        Some((b0 as char, 1))
      else if 0xC2 <= b0 <= 0xDF then
        if |s| >= 2 && IsContinuation(s[1]) then
          Some((((b0 - 0xC0) * 0x40 + (s[1] as int - 0x80)) as char, 2))
        else None
      else if 0xE0 <= b0 <= 0xEF then
        var lo := if b0 == 0xE0 then 0xA0 else 0x80;
        var hi := if b0 == 0xED then 0x9F else 0xBF;
        if |s| >= 3 && lo <= s[1] as int <= hi && IsContinuation(s[2]) then
          Some((((b0 - 0xE0) * 0x1000 + (s[1] as int - 0x80) * 0x40 + (s[2] as int - 0x80)) as char, 3))
        else None
      else if 0xF0 <= b0 <= 0xF4 then
        var lo := if b0 == 0xF0 then 0x90 else 0x80;
        var hi := if b0 == 0xF4 then 0x8F else 0xBF;
        if |s| >= 4 && lo <= s[1] as int <= hi && IsContinuation(s[2]) && IsContinuation(s[3]) then
          Some((((b0 - 0xF0) * 0x40000 + (s[1] as int - 0x80) * 0x1000
                 + (s[2] as int - 0x80) * 0x40 + (s[3] as int - 0x80)) as char, 4))
        else None
      else None
  }

  /** The decoded text, or `None` for the `UnicodeDecodeError` Python raises. */
  function Decode(s: seq<byte>): (r: Option<string>)
    ensures r.Some? ==> |r.value| <= |s|
    decreases |s|
  {
    if s == [] then Some("")
    else
      match DecodeFirst(s)
      case None => None
      case Some((c, n)) =>
        match Decode(s[n..])
        case None => None
        case Some(t) => Some([c] + t)
  }

  /** A sequence decoded at the head of `a` is decoded the same way whatever follows it. */
  lemma DecodeFirstExtends(a: seq<byte>, b: seq<byte>)
    requires DecodeFirst(a).Some?
    ensures DecodeFirst(a + b) == DecodeFirst(a)
  {
    var n := DecodeFirst(a).value.1;
    assert forall k :: 0 <= k < n ==> (a + b)[k] == a[k];
  }

  /** Decoding distributes over concatenation of decodable pieces. */
  lemma {:induction false} DecodeAppend(a: seq<byte>, b: seq<byte>)
    requires Decode(a).Some? && Decode(b).Some?
    ensures Decode(a + b) == Some(Decode(a).value + Decode(b).value)
    decreases |a|
  {
    if a == [] {
      assert a + b == b;
      assert Decode(a).value + Decode(b).value == Decode(b).value;
    } else {
      DecodeFirstExtends(a, b);
      var (c, n) := DecodeFirst(a).value;
      assert (a + b)[n..] == a[n..] + b;
      DecodeAppend(a[n..], b);
      DecodeStep(a + b, c, n);
      DecodeStep(a, c, n);
      AppendAssoc([c], Decode(a[n..]).value, Decode(b).value);
    }
  }

  /** Decoding after a well-formed head: the head's character, then the rest decoded. */
  lemma DecodeStep(s: seq<byte>, c: char, n: nat)
    requires DecodeFirst(s) == Some((c, n)) && Decode(s[n..]).Some?
    ensures Decode(s) == Some([c] + Decode(s[n..]).value)
  {
  }

  /** Bytes below 0x80 decode one character each, to the same code point. */
  lemma {:induction false} DecodeAscii(s: seq<byte>)
    requires forall k :: 0 <= k < |s| ==> s[k] < 0x80
    ensures Decode(s).Some? && |Decode(s).value| == |s|
    ensures forall k :: 0 <= k < |s| ==> Decode(s).value[k] == s[k] as char
    decreases |s|
  {
    if s != [] {
      assert DecodeFirst(s) == Some((s[0] as char, 1));
      DecodeAscii(s[1..]);
      var t := Decode(s[1..]).value;
      assert Decode(s).value == [s[0] as char] + t;
    }
  }

  /**
    The chunk boundary matters: the two bytes of U+00E9 decode together, but
    neither decodes alone, so a reader that decodes chunk by chunk drops both.
   */
  lemma SplitCharacterIsLost()
    ensures Decode([0xC3 as byte, 0xA9 as byte]) == Some(['\U{E9}'])
    ensures Decode([0xC3 as byte]) == None && Decode([0xA9 as byte]) == None
  {
    var s := [0xC3 as byte, 0xA9 as byte];
    assert ((0xC3 - 0xC0) * 0x40 + (0xA9 - 0x80)) as char == '\U{E9}';
    assert DecodeFirst(s) == Some(('\U{E9}', 2));
    assert s[2..] == [];
    assert Decode(s[2..]) == Some("");
    assert Decode(s) == Some(['\U{E9}'] + "");
    assert ['\U{E9}'] + "" == ['\U{E9}'];
  }
}
