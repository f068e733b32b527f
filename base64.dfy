/** Base64 in the standard alphabet with padding (section 4 of RFC 4648), as
    Go's `base64.StdEncoding` decodes it: carriage returns and line feeds are
    skipped wherever they occur, the rest must be whole quanta of four
    characters, and `=` padding may only end the last quantum. The bits a
    padded quantum does not use are ignored. A byte string is a `string`
    whose characters are all below 256. */
module Base64 {
  import opened Wrappers

  predicate IsByteString(s: string) {
    forall k :: 0 <= k < |s| ==> s[k] as int < 256
  }

  /** The character for a 6-bit value: `A`-`Z`, `a`-`z`, `0`-`9`, `+`, `/`. */
  function EncodeSextet(v: nat): (c: char)
    requires v < 64
    ensures c != '=' && c != '\r' && c != '\n'
  {
    if v < 26 then ('A' as int + v) as char
    else if v < 52 then ('a' as int + (v - 26)) as char
    else if v < 62 then ('0' as int + (v - 52)) as char
    else if v == 62 then '+'
    else '/'
  }

  /** The 6-bit value of an alphabet character; `None` for anything else,
      the padding character included. */
  function DecodeSextet(c: char): (r: Option<nat>)
    ensures r.Some? ==> r.value < 64 && EncodeSextet(r.value) == c
  {
    if 'A' <= c <= 'Z' then Some(c as int - 'A' as int)
    else if 'a' <= c <= 'z' then Some(c as int - 'a' as int + 26)
    else if '0' <= c <= '9' then Some(c as int - '0' as int + 52)
    else if c == '+' then Some(62)
    else if c == '/' then Some(63)
    else None
  }

  lemma SextetRoundTrip(v: nat)
    requires v < 64
    ensures DecodeSextet(EncodeSextet(v)) == Some(v)
  {
  }

  function Byte(v: int): char
    requires 0 <= v < 256
  {
    v as char
  }

  // ---------------------------------------------------------------------
  // Encoding

  /** Four characters for three bytes. */
  function EncodeQuantum(b0: char, b1: char, b2: char): string
    requires b0 as int < 256 && b1 as int < 256 && b2 as int < 256
  {
    var x, y, z := b0 as int, b1 as int, b2 as int;
    [EncodeSextet(x / 4), EncodeSextet((x % 4) * 16 + y / 16), EncodeSextet((y % 16) * 4 + z / 64), EncodeSextet(z % 64)]
  }

  /** Two sextets and two padding characters for one last byte. */
  function EncodeOne(b0: char): string
    requires b0 as int < 256
  {
    var x := b0 as int;
    [EncodeSextet(x / 4), EncodeSextet((x % 4) * 16), '=', '=']
  }

  /** Three sextets and one padding character for two last bytes. */
  function EncodeTwo(b0: char, b1: char): string
    requires b0 as int < 256 && b1 as int < 256
  {
    var x, y := b0 as int, b1 as int;
    [EncodeSextet(x / 4), EncodeSextet((x % 4) * 16 + y / 16), EncodeSextet((y % 16) * 4), '=']
  }

  /** The encoding of a byte string, padded to whole quanta. */
  function Encode(b: string): (r: string)
    requires IsByteString(b)
    ensures |r| % 4 == 0
    ensures forall k :: 0 <= k < |r| ==> r[k] != '\r' && r[k] != '\n'
  {
    if |b| == 0 then []
    else if |b| == 1 then EncodeOne(b[0])
    else if |b| == 2 then EncodeTwo(b[0], b[1])
    else
      EncodeQuantum(b[0], b[1], b[2]) + Encode(b[3..])
  }

  // ---------------------------------------------------------------------
  // Decoding

  /** The input without its carriage returns and line feeds. */
  function StripNewlines(s: string): (r: string)
    ensures |r| <= |s|
  {
    if s == [] then []
    else if s[0] == '\r' || s[0] == '\n' then StripNewlines(s[1..])
    else [s[0]] + StripNewlines(s[1..])
  }

  /** A quantum of four alphabet characters: three bytes. */
  function DecodeFull(q: string): (r: Option<string>)
    requires |q| == 4
    ensures r.Some? ==> |r.value| == 3 && IsByteString(r.value)
  {
    match (DecodeSextet(q[0]), DecodeSextet(q[1]), DecodeSextet(q[2]), DecodeSextet(q[3]))
    case (Some(s0), Some(s1), Some(s2), Some(s3)) =>
      Some([Byte(s0 * 4 + s1 / 16), Byte((s1 % 16) * 16 + s2 / 4), Byte((s2 % 4) * 64 + s3)])
    case _ => None
  }

  /** The last quantum: `xy==` is one byte, `xyz=` two, otherwise it must be
      a full quantum. */
  function DecodeFinal(q: string): (r: Option<string>)
    requires |q| == 4
    ensures r.Some? ==> 1 <= |r.value| <= 3 && IsByteString(r.value)
  {
    if q[2] == '=' && q[3] == '=' then
      match (DecodeSextet(q[0]), DecodeSextet(q[1]))
      case (Some(s0), Some(s1)) => Some([Byte(s0 * 4 + s1 / 16)])
      case _ => None
    else if q[3] == '=' then
      match (DecodeSextet(q[0]), DecodeSextet(q[1]), DecodeSextet(q[2]))
      case (Some(s0), Some(s1), Some(s2)) => Some([Byte(s0 * 4 + s1 / 16), Byte((s1 % 16) * 16 + s2 / 4)])
      case _ => None
    else DecodeFull(q)
  }

  /** Whole quanta, padding allowed only in the last one; input that ends
      inside a quantum is corrupt. */
  function DecodeQuanta(t: string): (r: Option<string>)
    ensures r.Some? ==> IsByteString(r.value)
  {
    if t == [] then Some([])
    else if |t| < 4 then None
    else if |t| == 4 then DecodeFinal(t)
    else match DecodeFull(t[..4])
      case None => None
      case Some(head) =>
        match DecodeQuanta(t[4..])
        case None => None
        case Some(tail) => Some(head + tail)
  }

  /** `StdEncoding.DecodeString`: the bytes, or `None` for corrupt input. */
  function Decode(s: string): (r: Option<string>)
    ensures r.Some? ==> IsByteString(r.value)
  {
    DecodeQuanta(StripNewlines(s))
  }

  // ---------------------------------------------------------------------
  // Properties

  lemma {:induction false} StripNewlinesClean(s: string)
    requires forall k :: 0 <= k < |s| ==> s[k] != '\r' && s[k] != '\n'
    ensures StripNewlines(s) == s
  {
    if s != [] {
      StripNewlinesClean(s[1..]);
      assert s == [s[0]] + s[1..];
    }
  }

  /** Line breaks anywhere in the input are skipped. */
  lemma StripNewlinesSkips(a: string, b: string)
    ensures StripNewlines(a + "\r\n" + b) == StripNewlines(a + b)
  {
    assert a + "\r\n" + b == a + ("\r\n" + b);
    StripNewlinesAppend(a, "\r\n" + b);
    StripNewlinesAppend(a, b);
    assert ("\r\n" + b)[1..] == "\n" + b;
    assert ("\n" + b)[1..] == b;
  }

  lemma {:induction false} StripNewlinesAppend(a: string, b: string)
    ensures StripNewlines(a + b) == StripNewlines(a) + StripNewlines(b)
  {
    if a != [] {
      assert (a + b)[1..] == a[1..] + b;
      StripNewlinesAppend(a[1..], b);
    } else {
      assert a + b == b;
    }
  }

  lemma QuantumRoundTrip(b0: char, b1: char, b2: char)
    requires b0 as int < 256 && b1 as int < 256 && b2 as int < 256
    ensures DecodeFull(EncodeQuantum(b0, b1, b2)) == Some([b0, b1, b2])
  {
    var x, y, z := b0 as int, b1 as int, b2 as int;
    var s0, s1, s2, s3 := x / 4, (x % 4) * 16 + y / 16, (y % 16) * 4 + z / 64, z % 64;
    SextetRoundTrip(s0);
    SextetRoundTrip(s1);
    SextetRoundTrip(s2);
    SextetRoundTrip(s3);
    assert s1 / 16 == x % 4;
    assert s1 % 16 == y / 16;
    assert s2 / 4 == y % 16;
    assert s2 % 4 == z / 64;
    assert Byte(s0 * 4 + s1 / 16) == b0;
    assert Byte((s1 % 16) * 16 + s2 / 4) == b1;
    assert Byte((s2 % 4) * 64 + s3) == b2;
  }

  lemma OneRoundTrip(b0: char)
    requires b0 as int < 256
    ensures DecodeFinal(EncodeOne(b0)) == Some([b0])
  {
    var x := b0 as int;
    var s0, s1 := x / 4, (x % 4) * 16;
    SextetRoundTrip(s0);
    SextetRoundTrip(s1);
    assert s1 / 16 == x % 4;
    assert Byte(s0 * 4 + s1 / 16) == b0;
  }

  lemma TwoRoundTrip(b0: char, b1: char)
    requires b0 as int < 256 && b1 as int < 256
    ensures DecodeFinal(EncodeTwo(b0, b1)) == Some([b0, b1])
  {
    var x, y := b0 as int, b1 as int;
    var s0, s1, s2 := x / 4, (x % 4) * 16 + y / 16, (y % 16) * 4;
    SextetRoundTrip(s0);
    SextetRoundTrip(s1);
    SextetRoundTrip(s2);
    assert s1 / 16 == x % 4;
    assert s1 % 16 == y / 16;
    assert s2 / 4 == y % 16;
    assert Byte(s0 * 4 + s1 / 16) == b0;
    assert Byte((s1 % 16) * 16 + s2 / 4) == b1;
  }

  lemma {:induction false} DecodeQuantaEncode(b: string)
    requires IsByteString(b)
    ensures DecodeQuanta(Encode(b)) == Some(b)
  {
    if |b| < 3 {
      ShortRoundTrip(b);
    } else {
      DecodeQuantaEncode(b[3..]);
      DecodeQuantaEncodeStep(b[0], b[1], b[2], b[3..]);
      EncodeSplit(b);
    }
  }

  /** Fewer than three bytes: the final, padded quantum. */
  lemma ShortRoundTrip(b: string)
    requires IsByteString(b) && |b| < 3
    ensures DecodeQuanta(Encode(b)) == Some(b)
  {
    if |b| == 1 {
      OneRoundTrip(b[0]);
      assert b == [b[0]];
    } else if |b| == 2 {
      TwoRoundTrip(b[0], b[1]);
      assert b == [b[0], b[1]];
    }
  }

  /** Three bytes or more: a full quantum, then the rest. */
  lemma EncodeSplit(b: string)
    requires IsByteString(b) && |b| >= 3
    ensures Encode(b) == EncodeQuantum(b[0], b[1], b[2]) + Encode(b[3..])
    ensures [b[0], b[1], b[2]] + b[3..] == b
  {
  }

  /** One inductive step: a full quantum in front of a string that already
      round-trips. */
  lemma DecodeQuantaEncodeStep(b0: char, b1: char, b2: char, tail: string)
    requires b0 as int < 256 && b1 as int < 256 && b2 as int < 256 && IsByteString(tail)
    requires DecodeQuanta(Encode(tail)) == Some(tail)
    ensures DecodeQuanta(EncodeQuantum(b0, b1, b2) + Encode(tail)) == Some([b0, b1, b2] + tail)
  {
    QuantumRoundTrip(b0, b1, b2);
    DecodeQuantaPrepend(EncodeQuantum(b0, b1, b2), Encode(tail));
  }

  /** A full quantum in front of whole quanta decodes to its three bytes in
      front of theirs. */
  lemma DecodeQuantaPrepend(q: string, rest: string)
    requires |q| == 4
    requires DecodeFull(q).Some? && DecodeQuanta(rest).Some?
    ensures DecodeQuanta(q + rest) == Some(DecodeFull(q).value + DecodeQuanta(rest).value)
  {
    var t := q + rest;
    assert t[..4] == q && t[4..] == rest;
    if rest == [] {
      assert t == q;
      assert q[3] != '=' by {
        assert DecodeSextet(q[3]).Some?;
      }
      assert DecodeQuanta(rest).value == [];
      assert DecodeFull(q).value + [] == DecodeFull(q).value;
    }
  }

  /** Decoding undoes encoding, for every byte string. */
  lemma DecodeEncode(b: string)
    requires IsByteString(b)
    ensures Decode(Encode(b)) == Some(b)
  {
    StripNewlinesClean(Encode(b));
    DecodeQuantaEncode(b);
  }

  /** Input whose length, line breaks aside, is not a multiple of four is
      corrupt; so is a quantum holding padding (`xy==`, `xyz=`, `====`, ...)
      that is followed by more input, whether as quanta or, without line
      breaks, as the text given to `Decode`. */
  lemma DecodeRejects(s: string, a: string, q: string, b: string)
    ensures |StripNewlines(s)| % 4 != 0 ==> Decode(s).None?
    ensures |a| % 4 == 0 && |q| == 4 && '=' in q && |b| > 0 ==> DecodeQuanta(a + q + b).None?
    ensures && |a| % 4 == 0 && |q| == 4 && '=' in q && |b| > 0
            && (forall k :: 0 <= k < |a + q + b| ==> (a + q + b)[k] != '\r' && (a + q + b)[k] != '\n')
            ==> Decode(a + q + b).None?
  {
    PartialQuantum(StripNewlines(s));
    if |a| % 4 == 0 && |q| == 4 && '=' in q && |b| > 0 {
      PaddingInside(a, q, b);
      if forall k :: 0 <= k < |a + q + b| ==> (a + q + b)[k] != '\r' && (a + q + b)[k] != '\n' {
        StripNewlinesClean(a + q + b);
      }
    }
  }

  lemma {:induction false} PartialQuantum(t: string)
    ensures |t| % 4 != 0 ==> DecodeQuanta(t).None?
  {
    if |t| > 4 {
      PartialQuantum(t[4..]);
    }
  }

  lemma {:induction false} PaddingInside(a: string, q: string, b: string)
    requires |a| % 4 == 0 && |q| == 4 && '=' in q && |b| > 0
    ensures DecodeQuanta(a + q + b).None?
  {
    var t := a + q + b;
    if a == [] {
      assert t[..4] == q;
      assert DecodeSextet('=').None?;
    } else {
      assert t[4..] == a[4..] + q + b;
      PaddingInside(a[4..], q, b);
    }
  }
}
