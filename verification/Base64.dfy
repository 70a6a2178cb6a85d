/** Decoding the salt: trimming, the padding trick of replacing '=' by 'A', and cutting the padding off again. */
module Base64 {
  import opened Bytes

  // ---------------------------------------------------------------- RFC 4648, section 4

  function CharOf(v: nat): char
    requires v < 64
  {
    if v < 26 then 'A' + v as char
    else if v < 52 then 'a' + (v - 26) as char
    else if v < 62 then '0' + (v - 52) as char
    else if v == 62 then '+' else '/'
  }

  function ValueOf(c: char): (v: Option<nat>)
    ensures v.Some? ==> v.value < 64
  {
    if 'A' <= c <= 'Z' then Some(c as nat - 'A' as nat)
    else if 'a' <= c <= 'z' then Some(c as nat - 'a' as nat + 26)
    else if '0' <= c <= '9' then Some(c as nat - '0' as nat + 52)
    else if c == '+' then Some(62)
    else if c == '/' then Some(63)
    else None
  }

  /** Neither padding nor white space. */
  predicate Plain(c: char) {
    c != '=' && !IsSpace(c)
  }

  lemma CharRoundTrip(v: nat)
    requires v < 64
    ensures ValueOf(CharOf(v)) == Some(v)
    ensures Plain(CharOf(v))
  {
  }

  /** Three bytes as four characters. */
  function EncodeGroup(b0: byte, b1: byte, b2: byte): (s: string)
    ensures |s| == 4
  {
    [CharOf(b0 / 4), CharOf(b0 % 4 * 16 + b1 / 16), CharOf(b1 % 16 * 4 + b2 / 64), CharOf(b2 % 64)]
  }

  /** A last group of one or two bytes, padded. */
  function EncodeOne(b0: byte): (s: string)
    ensures |s| == 4
  {
    [CharOf(b0 / 4), CharOf(b0 % 4 * 16), '=', '=']
  }

  function EncodeTwo(b0: byte, b1: byte): (s: string)
    ensures |s| == 4
  {
    [CharOf(b0 / 4), CharOf(b0 % 4 * 16 + b1 / 16), CharOf(b1 % 16 * 4), '=']
  }

  function Encode(s: seq<byte>): (e: string)
    ensures |e| % 4 == 0 && (s != [] ==> |e| >= 4)
  {
    if s == [] then ""
    else if |s| == 1 then EncodeOne(s[0])
    else if |s| == 2 then EncodeTwo(s[0], s[1])
    else EncodeGroup(s[0], s[1], s[2]) + Encode(s[3..])
  }

  // ---------------------------------------------------------------- the code

  predicate IsSpace(c: char) {
    c == ' ' || '\t' <= c <= '\r'
  }

  function TrimLeft(s: string): (r: string)
  {
    if s != "" && IsSpace(s[0]) then TrimLeft(s[1..]) else s
  }

  function TrimRight(s: string): (r: string)
  {
    if s != "" && IsSpace(s[|s| - 1]) then TrimRight(s[..|s| - 1]) else s
  }

  function Trim(s: string): (r: string)
  {
    TrimRight(TrimLeft(s))
  }

  function CountPads(s: string): (n: nat)
    ensures n <= |s|
  {
    if s == "" then 0 else (if s[0] == '=' then 1 else 0) + CountPads(s[1..])
  }

  function ReplacePads(s: string): (r: string)
    ensures |r| == |s|
  {
    seq(|s|, i requires 0 <= i < |s| => if s[i] == '=' then 'A' else s[i])
  }

  /** Four characters as three bytes; None is the exception for a character outside the alphabet. */
  function DecodeGroup(c0: char, c1: char, c2: char, c3: char): (r: Option<seq<byte>>)
    ensures r.Some? ==> |r.value| == 3
  {
    match (ValueOf(c0), ValueOf(c1), ValueOf(c2), ValueOf(c3))
    case (Some(v0), Some(v1), Some(v2), Some(v3)) =>
      Some([v0 * 4 + v1 / 16, v1 % 16 * 16 + v2 / 4, v2 % 4 * 64 + v3])
    case _ => None
  }

  function DecodeText(s: string): (r: Option<seq<byte>>)
    requires |s| % 4 == 0
    ensures r.Some? ==> 4 * |r.value| == 3 * |s|
  {
    if s == "" then Some([])
    else
      match (DecodeGroup(s[0], s[1], s[2], s[3]), DecodeText(s[4..]))
      case (Some(g), Some(rest)) => Some(g + rest)
      case _ => None
  }

  /** Trim, count the padding, replace it, decode, and erase as many bytes. More padding characters than decoded
      bytes cannot be erased. */
  function DecodeSalt(salt: string): (r: Option<seq<byte>>)
    requires |Trim(salt)| % 4 == 0
  {
    var text := Trim(salt);
    match DecodeText(ReplacePads(text))
    case None => None
    case Some(bytes) =>
      if CountPads(text) <= |bytes| then Some(bytes[..|bytes| - CountPads(text)]) else None
  }

  // ---------------------------------------------------------------- the alphabet by example

  /** The letters, digits and signs, in the order of the alphabet. */
  lemma Alphabet()
    ensures CharOf(0) == 'A' && CharOf(25) == 'Z' && CharOf(26) == 'a' && CharOf(51) == 'z'
    ensures CharOf(52) == '0' && CharOf(61) == '9' && CharOf(62) == '+' && CharOf(63) == '/'
    ensures forall v :: 0 <= v < 63 && v != 25 && v != 51 && v != 61 && v != 62 ==>
              CharOf(v + 1) as int == CharOf(v) as int + 1
    ensures forall c :: IsSpace(c) <==> c as int in {9, 10, 11, 12, 13, 32}
  {
  }

  /** The examples of RFC 4648, section 10. */
  lemma KnownGroups()
    ensures EncodeGroup(0x66, 0x6f, 0x6f) == "Zm9v" && EncodeGroup(0x62, 0x61, 0x72) == "YmFy"
    ensures EncodeOne(0x66) == "Zg==" && EncodeTwo(0x66, 0x6f) == "Zm8="
  {
  }

  // ---------------------------------------------------------------- decoding undoes encoding

  /** The four six-bit pieces of three bytes put the bytes together again. */
  lemma Sextets(b0: byte, b1: byte, b2: byte)
    ensures var v0, v1, v2, v3 := b0 / 4, b0 % 4 * 16 + b1 / 16, b1 % 16 * 4 + b2 / 64, b2 % 64;
            && v0 < 64 && v1 < 64 && v2 < 64 && v3 < 64
            && v0 * 4 + v1 / 16 == b0 && v1 % 16 * 16 + v2 / 4 == b1 && v2 % 4 * 64 + v3 == b2
  {
  }

  lemma GroupRoundTrip(b0: byte, b1: byte, b2: byte)
    ensures var e := EncodeGroup(b0, b1, b2);
            && DecodeGroup(e[0], e[1], e[2], e[3]) == Some([b0, b1, b2])
            && forall i :: 0 <= i < 4 ==> Plain(e[i])
  {
    hide CharOf, ValueOf, DecodeGroup, Plain;
    Sextets(b0, b1, b2);
    var v0, v1, v2, v3 := b0 / 4, b0 % 4 * 16 + b1 / 16, b1 % 16 * 4 + b2 / 64, b2 % 64;
    GroupOfSextets(v0, v1, v2, v3);
    var e := EncodeGroup(b0, b1, b2);
    assert e[0] == CharOf(v0) && e[1] == CharOf(v1) && e[2] == CharOf(v2) && e[3] == CharOf(v3);
  }

  lemma GroupOfSextets(v0: nat, v1: nat, v2: nat, v3: nat)
    requires v0 < 64 && v1 < 64 && v2 < 64 && v3 < 64
    ensures DecodeGroup(CharOf(v0), CharOf(v1), CharOf(v2), CharOf(v3)) ==
            Some([v0 * 4 + v1 / 16, v1 % 16 * 16 + v2 / 4, v2 % 4 * 64 + v3])
    ensures Plain(CharOf(v0)) && Plain(CharOf(v1)) && Plain(CharOf(v2)) && Plain(CharOf(v3))
  {
    hide CharOf, ValueOf, IsSpace;
    CharRoundTrip(v0);
    CharRoundTrip(v1);
    CharRoundTrip(v2);
    CharRoundTrip(v3);
  }

  /** The zero bits of padding encode as 'A'. */
  lemma PadIsA()
    ensures CharOf(0) == 'A' && !IsSpace('=')
  {
  }

  function Pads(n: nat): (k: nat) { if n % 3 == 1 then 2 else if n % 3 == 2 then 1 else 0 }

  lemma {:induction false} EncodeDecodes(s: seq<byte>)
    ensures CountPads(Encode(s)) == Pads(|s|)
    ensures DecodeText(ReplacePads(Encode(s))) == Some(s + seq(Pads(|s|), _ => 0))
  {
    hide DecodeGroup, EncodeGroup, EncodeOne, EncodeTwo, ReplacePads, IsSpace, CountPads, DecodeText;
    if s == [] {
      NothingDecodes();
      assert s + seq(Pads(|s|), _ => 0) == [];
    } else if |s| < 3 {
      LastGroup(s);
    } else {
      EncodeDecodes(s[3..]);
      FirstGroup(s);
    }
  }

  lemma FirstGroup(s: seq<byte>)
    requires |s| >= 3 && CountPads(Encode(s[3..])) == Pads(|s| - 3)
    requires DecodeText(ReplacePads(Encode(s[3..]))) == Some(s[3..] + seq(Pads(|s| - 3), _ => 0))
    ensures CountPads(Encode(s)) == Pads(|s|)
    ensures DecodeText(ReplacePads(Encode(s))) == Some(s + seq(Pads(|s|), _ => 0))
  {
    hide DecodeGroup, EncodeGroup, ReplacePads, CountPads, DecodeText, Encode, Plain;
    var g, rest := EncodeGroup(s[0], s[1], s[2]), Encode(s[3..]);
    assert Encode(s) == g + rest by { EncodeMore(s); }
    GroupRoundTrip(s[0], s[1], s[2]);
    PlainIsNoPad(g);
    CountPadsSkips(g, rest);
    DecodeTextCons(g, rest);
    assert Pads(|s| - 3) == Pads(|s|);
    Restore(s, seq(Pads(|s|), _ => 0));
  }

  lemma EncodeMore(s: seq<byte>)
    requires |s| >= 3
    ensures Encode(s) == EncodeGroup(s[0], s[1], s[2]) + Encode(s[3..])
  {
    hide EncodeOne, EncodeTwo, EncodeGroup;
  }

  lemma Restore(s: seq<byte>, zeros: seq<byte>)
    requires |s| >= 3
    ensures [s[0], s[1], s[2]] + (s[3..] + zeros) == s + zeros
  {
  }

  lemma {:induction false} EncodeHasNoSpace(s: seq<byte>)
    ensures forall i :: 0 <= i < |Encode(s)| ==> !IsSpace(Encode(s)[i])
  {
    hide CharOf, IsSpace;
    assert !IsSpace('=') by { PadIsA(); }
    if |s| == 1 {
      CharRoundTrip(s[0] / 4);
      CharRoundTrip(s[0] % 4 * 16);
    } else if |s| == 2 {
      CharRoundTrip(s[0] / 4);
      CharRoundTrip(s[0] % 4 * 16 + s[1] / 16);
      CharRoundTrip(s[1] % 16 * 4);
    } else if |s| > 2 {
      hide EncodeGroup;
      GroupRoundTrip(s[0], s[1], s[2]);
      EncodeHasNoSpace(s[3..]);
    }
  }

  lemma DecodeTextCons(g: string, rest: string)
    requires |g| == 4 && |rest| % 4 == 0 && |g + rest| % 4 == 0 && forall i :: 0 <= i < 4 ==> g[i] != '='
    requires DecodeGroup(g[0], g[1], g[2], g[3]).Some? && DecodeText(ReplacePads(rest)).Some?
    ensures DecodeText(ReplacePads(g + rest)) ==
            Some(DecodeGroup(g[0], g[1], g[2], g[3]).value + DecodeText(ReplacePads(rest)).value)
  {
    hide DecodeGroup;
    var text := ReplacePads(g + rest);
    assert text[0] == g[0] && text[1] == g[1] && text[2] == g[2] && text[3] == g[3];
    assert text[4..] == ReplacePads(rest);
  }

  lemma NothingDecodes()
    ensures CountPads("") == 0 && DecodeText(ReplacePads("")) == Some([])
  {
    assert ReplacePads("") == "";
  }

  lemma {:induction false} CountPadsSkips(g: string, rest: string)
    requires forall i :: 0 <= i < |g| ==> g[i] != '='
    ensures CountPads(g + rest) == CountPads(rest)
  {
    if g == "" {
      assert g + rest == rest;
    } else {
      assert (g + rest)[1..] == g[1..] + rest;
      CountPadsSkips(g[1..], rest);
    }
  }

  lemma LastGroup(s: seq<byte>)
    requires 1 <= |s| <= 2
    ensures CountPads(Encode(s)) == Pads(|s|)
    ensures DecodeText(ReplacePads(Encode(s))) == Some(s + seq(Pads(|s|), _ => 0))
  {
    hide Encode, EncodeGroup, DecodeText, CountPads, ReplacePads, Plain;
    var b1 := if |s| == 2 then s[1] else 0;
    LastGroupText(s, b1);
    LastGroupPads(s, EncodeGroup(s[0], b1, 0));
    LastGroupDecodes(s[0], b1);
    FilledUp(s, b1);
  }

  lemma FilledUp(s: seq<byte>, b1: byte)
    requires 1 <= |s| <= 2 && b1 == if |s| == 2 then s[1] else 0
    ensures [s[0], b1, 0] == s + seq(Pads(|s|), _ => 0)
  {
  }

  /** The last group is that of the bytes filled up with zeros, with padding in place of what stands for zeros only. */
  lemma LastGroupText(s: seq<byte>, b1: byte)
    requires 1 <= |s| <= 2 && b1 == if |s| == 2 then s[1] else 0
    ensures var e := EncodeGroup(s[0], b1, 0);
            && Encode(s) == e[..|s| + 1] + (if |s| == 1 then "==" else "=")
            && (forall i :: 0 <= i < 4 ==> Plain(e[i])) && ReplacePads(Encode(s)) == e
  {
    hide EncodeGroup, EncodeOne, EncodeTwo, Plain, DecodeGroup;
    var e := EncodeGroup(s[0], b1, 0);
    GroupRoundTrip(s[0], b1, 0);
    PlainIsNoPad(e);
    PaddedGroup(s[0], b1);
    assert Encode(s) == e[..|s| + 1] + (if |s| == 1 then "==" else "=");
    assert ReplacePads(Encode(s)) == e;
  }

  lemma PaddedGroup(b0: byte, b1: byte)
    ensures var e := EncodeGroup(b0, b1, 0);
            && e[3] == 'A' && EncodeTwo(b0, b1) == [e[0], e[1], e[2], '=']
            && (b1 == 0 ==> e[2] == 'A' && EncodeOne(b0) == [e[0], e[1], '=', '='])
  {
    hide CharOf;
    PadIsA();
    assert 0 % 64 == 0 && 0 / 64 == 0 && 0 / 16 == 0;
  }

  lemma PlainIsNoPad(e: string)
    requires forall i :: 0 <= i < |e| ==> Plain(e[i])
    ensures forall i :: 0 <= i < |e| ==> e[i] != '='
  {
  }

  lemma LastGroupPads(s: seq<byte>, e: string)
    requires 1 <= |s| <= 2 && |e| == 4 && forall i :: 0 <= i < 4 ==> Plain(e[i])
    requires Encode(s) == e[..|s| + 1] + (if |s| == 1 then "==" else "=")
    ensures CountPads(Encode(s)) == Pads(|s|)
  {
    hide CountPads, Encode, Plain;
    PlainIsNoPad(e);
    CountPadsOnly();
    if |s| == 1 {
      CountPadsSkips(e[..2], "==");
    } else {
      CountPadsSkips(e[..3], "=");
    }
  }

  lemma LastGroupDecodes(b0: byte, b1: byte)
    ensures DecodeText(EncodeGroup(b0, b1, 0)) == Some([b0, b1, 0])
  {
    hide EncodeGroup, DecodeGroup, Plain;
    var e := EncodeGroup(b0, b1, 0);
    GroupRoundTrip(b0, b1, 0);
    assert e[4..] == "" && DecodeText("") == Some([]);
    assert [b0, b1, 0] + [] == [b0, b1, 0];
  }

  lemma CountPadsOnly()
    ensures CountPads("=") == 1 && CountPads("==") == 2
  {
    assert "=="[1..] == "=" && "="[1..] == "";
  }

  lemma {:induction false} TrimLeftSpaces(lead: string, s: string)
    requires forall c :: c in lead ==> IsSpace(c)
    requires s != "" && !IsSpace(s[0])
    ensures TrimLeft(lead + s) == s
  {
    hide IsSpace;
    if lead == "" {
      assert lead + s == s;
    } else {
      assert lead[0] in lead && (lead + s)[1..] == lead[1..] + s;
      TrimLeftSpaces(lead[1..], s);
    }
  }

  lemma {:induction false} TrimRightSpaces(s: string, trail: string)
    requires forall c :: c in trail ==> IsSpace(c)
    requires s != "" && !IsSpace(s[|s| - 1])
    ensures TrimRight(s + trail) == s
  {
    hide IsSpace;
    if trail == "" {
      assert s + trail == s;
    } else {
      var n := |trail| - 1;
      assert trail[n] in trail && (s + trail)[..|s| + n] == s + trail[..n];
      TrimRightSpaces(s, trail[..n]);
    }
  }

  /** Any salt, encoded by the book and surrounded by any white space, is recovered byte for byte. */
  lemma SaltRecovered(lead: string, salt: seq<byte>, trail: string)
    requires salt != []
    requires (forall c :: c in lead ==> IsSpace(c)) && forall c :: c in trail ==> IsSpace(c)
    ensures Trim(lead + Encode(salt) + trail) == Encode(salt)
    ensures DecodeSalt(lead + Encode(salt) + trail) == Some(salt)
  {
    hide DecodeText, CountPads, ReplacePads, IsSpace, Encode;
    var e := Encode(salt);
    EncodeDecodes(salt);
    EncodeHasNoSpace(salt);
    assert lead + e + trail == lead + (e + trail);
    TrimLeftSpaces(lead, e + trail);
    TrimRightSpaces(e, trail);
    var padded := salt + seq(Pads(|salt|), _ => 0);
    assert padded[..|padded| - Pads(|salt|)] == salt;
  }
}
