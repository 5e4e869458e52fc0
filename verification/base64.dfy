/** Base64 encoding with the standard alphabet and `=` padding, as specified
    in section 4 of RFC 4648 ("Base 64 Encoding"). The map service stores the
    map image in this form; `Encode` is what `base64.b64encode` computes.

    The encoding is written in the two steps section 4 describes: the input is
    cut into 6-bit groups (with pad symbols completing a final partial
    quantum), and each group is then written as one character of Table 1.
    `Decode` is an independent, strict decoder used as the encoder's partner:
    it accepts exactly the canonical encodings (section 3.5 of RFC 4648 lets a
    decoder reject non-zero pad bits, and this one does). */
module Base64 {
  import opened Options

  /** An octet of the input. */
  type Byte = x: nat | x < 256

  /** A 6-bit group, the value one Base64 character stands for. */
  type Sextet = x: nat | x < 64

  /** One output position: a 6-bit group, or the pad that completes a final
      quantum of fewer than 24 bits. */
  datatype Symbol = Sixbit(value: Sextet) | Padding

  const Pad: char := '='

  // ---------------------------------------------------------------------
  // Table 1: 6-bit values and their characters

  /** The 64 characters of the standard alphabet (Table 1 of RFC 4648). */
  predicate IsAlphabetChar(c: char)
  {
    ('A' <= c <= 'Z') || ('a' <= c <= 'z') || ('0' <= c <= '9') || c == '+' || c == '/'
  }

  /** Table 1 of RFC 4648, written out: the character at index k encodes
      the 6-bit value k. */
  const Table1: string := "ABCDEFGHIJKLMNOPQRSTUVWXYZ" + "abcdefghijklmnopqrstuvwxyz" + "0123456789" + "+/"

  /** Table 1 of RFC 4648: values 0-25 are 'A'-'Z', 26-51 are 'a'-'z',
      52-61 are '0'-'9', 62 is '+' and 63 is '/'. */
  function Digit(k: Sextet): (c: char)
    ensures IsAlphabetChar(c)
    ensures c == Table1[k]
  {
    if k < 26 then (65 + k) as char
    else if k < 52 then (97 + (k - 26)) as char
    else if k < 62 then (48 + (k - 52)) as char
    else if k == 62 then '+'
    else '/'
  }

  /** The inverse of Table 1: the value an alphabet character stands for. */
  function ValueOf(c: char): (k: Sextet)
    requires IsAlphabetChar(c)
    ensures Digit(k) == c
  {
    if 'A' <= c <= 'Z' then c as int - 65
    else if 'a' <= c <= 'z' then c as int - 97 + 26
    else if '0' <= c <= '9' then c as int - 48 + 52
    else if c == '+' then 62
    else 63
  }

  /** No two 6-bit values share a character. */
  lemma ValueOfDigit(k: Sextet)
    ensures ValueOf(Digit(k)) == k
  {
  }

  function CharOf(sym: Symbol): (c: char)
    ensures IsAlphabetChar(c) <==> sym.Sixbit?
    ensures c == Pad <==> sym.Padding?
  {
    match sym
    case Sixbit(k) => Digit(k)
    case Padding => Pad
  }

  function SymbolOf(c: char): Symbol
    requires IsAlphabetChar(c) || c == Pad
  {
    if c == Pad then Padding else Sixbit(ValueOf(c))
  }

  /** Writes every symbol as its character. */
  function Render(syms: seq<Symbol>): (s: string)
    ensures |s| == |syms|
    ensures forall i :: 0 <= i < |s| ==> s[i] == CharOf(syms[i])
  {
    seq(|syms|, i requires 0 <= i < |syms| => CharOf(syms[i]))
  }

  /** Reads every character as a symbol; `None` when one is neither an
      alphabet character nor the pad. */
  function Parse(s: string): Option<seq<Symbol>>
  {
    if forall i :: 0 <= i < |s| ==> IsAlphabetChar(s[i]) || s[i] == Pad then
      Some(seq(|s|, i requires 0 <= i < |s| => SymbolOf(s[i])))
    else
      None
  }

  // ---------------------------------------------------------------------
  // Section 4: 24-bit groups and 6-bit groups

  /** One full 24-bit group: three octets become four 6-bit groups, most
      significant bits first. */
  function Group(a: Byte, b: Byte, c: Byte): seq<Symbol>
  {
    [Sixbit(a / 4), Sixbit((a % 4) * 16 + b / 16), Sixbit((b % 16) * 4 + c / 64), Sixbit(c % 64)]
  }

  /** The 6-bit groups of `bytes`, left to right, with the final quantum
      completed as section 4 requires: 8 bits give two groups and two pads,
      16 bits give three groups and one pad; the bits added are zero. */
  function Sextets(bytes: seq<Byte>): seq<Symbol>
    decreases |bytes|
  {
    if |bytes| == 0 then []
    else if |bytes| == 1 then
      [Sixbit(bytes[0] / 4), Sixbit((bytes[0] % 4) * 16), Padding, Padding]
    else if |bytes| == 2 then
      [Sixbit(bytes[0] / 4), Sixbit((bytes[0] % 4) * 16 + bytes[1] / 16), Sixbit((bytes[1] % 16) * 4), Padding]
    else
      Group(bytes[0], bytes[1], bytes[2]) + Sextets(bytes[3..])
  }

  /** The Base64 encoding of `bytes`: what Python's `base64.b64encode`
      returns, read as text. */
  function Encode(bytes: seq<Byte>): (s: string)
    ensures |s| == 4 * ((|bytes| + 2) / 3)
    ensures forall i :: 0 <= i < |s| ==> IsAlphabetChar(s[i]) || s[i] == Pad
  {
    SextetsLength(bytes);
    Render(Sextets(bytes))
  }

  /** Four 6-bit groups back to the three octets they carry. */
  function DecodeGroup(q: seq<Symbol>): Option<seq<Byte>>
    requires |q| == 4
  {
    if q[0].Sixbit? && q[1].Sixbit? && q[2].Sixbit? && q[3].Sixbit? then
      var s0, s1, s2, s3 := q[0].value, q[1].value, q[2].value, q[3].value;
      Some([s0 * 4 + s1 / 16, (s1 % 16) * 16 + s2 / 4, (s2 % 4) * 64 + s3])
    else
      None
  }

  /** The final quantum, which may end in one or two pads. Pad bits that are
      not zero make the input non-canonical and are rejected. */
  function DecodeLast(q: seq<Symbol>): Option<seq<Byte>>
    requires |q| == 4
  {
    if q[2].Padding? && q[3].Padding? then
      if q[0].Sixbit? && q[1].Sixbit? && q[1].value % 16 == 0 then
        Some([q[0].value * 4 + q[1].value / 16])
      else
        None
    else if q[3].Padding? then
      if q[0].Sixbit? && q[1].Sixbit? && q[2].Sixbit? && q[2].value % 4 == 0 then
        var s0, s1, s2 := q[0].value, q[1].value, q[2].value;
        Some([s0 * 4 + s1 / 16, (s1 % 16) * 16 + s2 / 4])
      else
        None
    else
      DecodeGroup(q)
  }

  /** The octets a sequence of symbols carries: `None` for a length that is not
      a multiple of four, a pad anywhere but the end, or non-zero pad bits. */
  function DecodeSymbols(syms: seq<Symbol>): Option<seq<Byte>>
    decreases |syms|
  {
    if |syms| == 0 then Some([])
    else if |syms| < 4 then None
    else if |syms| == 4 then DecodeLast(syms)
    else
      match DecodeGroup(syms[..4])
      case None => None
      case Some(head) =>
        match DecodeSymbols(syms[4..])
        case None => None
        case Some(tail) => Some(head + tail)
  }

  /** Strict Base64 decoding. */
  function Decode(s: string): Option<seq<Byte>>
  {
    match Parse(s)
    case None => None
    case Some(syms) => DecodeSymbols(syms)
  }

  // ---------------------------------------------------------------------
  // Properties of the encoding

  /** Section 4 bit layout of a full group: read as four 6-bit digits,
      most significant first, the group carries the same 24-bit number as
      the three octets read most significant first. */
  lemma GroupBits(a: Byte, b: Byte, c: Byte)
    ensures var q := Group(a, b, c);
      q[0].Sixbit? && q[1].Sixbit? && q[2].Sixbit? && q[3].Sixbit? &&
      q[0].value * 262144 + q[1].value * 4096 + q[2].value * 64 + q[3].value == a * 65536 + b * 256 + c
  {
  }

  /** Section 4 bit layout of a final partial quantum: 8 bits are followed by
      4 zero bits and written as two digits and two pads; 16 bits are followed
      by 2 zero bits and written as three digits and one pad. */
  lemma FinalQuantumBits(bytes: seq<Byte>)
    requires 1 <= |bytes| <= 2
    ensures var q := Sextets(bytes);
      |q| == 4 && q[0].Sixbit? && q[1].Sixbit? && q[3].Padding? &&
      (|bytes| == 1 ==> q[2].Padding? && q[0].value * 64 + q[1].value == (bytes[0] as int) * 16) &&
      (|bytes| == 2 ==> (q[2].Sixbit? &&
        q[0].value * 4096 + q[1].value * 64 + q[2].value == ((bytes[0] as int) * 256 + bytes[1]) * 4))
  {
  }

  /** Writing out symbols whose characters are known. */
  lemma RenderAs(syms: seq<Symbol>, s: string)
    requires |syms| == |s|
    requires forall i :: 0 <= i < |s| ==> CharOf(syms[i]) == s[i]
    ensures Render(syms) == s
  {
  }

  /** The test vectors of section 10 of RFC 4648 ("f", "fo", "foo", "foob",
      "fooba", "foobar"). */
  lemma TestVectors()
    ensures Encode([]) == ""
    ensures Encode([102]) == "Zg=="
    ensures Encode([102, 111]) == "Zm8="
    ensures Encode([102, 111, 111]) == "Zm9v"
    ensures Encode([102, 111, 111, 98]) == "Zm9vYg=="
    ensures Encode([102, 111, 111, 98, 97]) == "Zm9vYmE="
    ensures Encode([102, 111, 111, 98, 97, 114]) == "Zm9vYmFy"
  {
    var foo: seq<Byte> := [102, 111, 111];
    var zm9v := [Sixbit(25), Sixbit(38), Sixbit(61), Sixbit(47)];
    assert Sextets(foo) == zm9v by {
      SextetsUnfold(foo);
      assert foo[3..] == [];
    }
    RenderAs(Sextets([102]), "Zg==");
    RenderAs(Sextets([102, 111]), "Zm8=");
    RenderAs(zm9v, "Zm9v");
    VectorsAfterFoo(foo, zm9v);
  }

  lemma VectorsAfterFoo(foo: seq<Byte>, zm9v: seq<Symbol>)
    requires foo == [102, 111, 111] && Sextets(foo) == zm9v
    requires zm9v == [Sixbit(25), Sixbit(38), Sixbit(61), Sixbit(47)]
    ensures Encode(foo + [98]) == "Zm9vYg=="
    ensures Encode(foo + [98, 97]) == "Zm9vYmE="
    ensures Encode(foo + [98, 97, 114]) == "Zm9vYmFy"
  {
    var tails: seq<seq<Byte>> := [[98], [98, 97], [98, 97, 114]];
    var texts := ["Zm9vYg==", "Zm9vYmE=", "Zm9vYmFy"];
    var groups := [[Sixbit(24), Sixbit(32), Padding, Padding], [Sixbit(24), Sixbit(38), Sixbit(4), Padding],
                   [Sixbit(24), Sixbit(38), Sixbit(5), Sixbit(50)]];
    forall j | 0 <= j < 3
      ensures Encode(foo + tails[j]) == texts[j]
    {
      var x := foo + tails[j];
      SextetsUnfold(x);
      assert x[..3] == foo && x[3..] == tails[j];
      if j == 2 {
        SextetsUnfold(tails[j]);
        assert tails[j][3..] == [];
      }
      assert Sextets(tails[j]) == groups[j];
      assert Sextets(x) == zm9v + groups[j];
      RenderAs(zm9v + groups[j], texts[j]);
    }
    assert foo + [98] == foo + tails[0];
    assert foo + [98, 97] == foo + tails[1];
    assert foo + [98, 97, 114] == foo + tails[2];
  }

  lemma SextetsUnfold(bytes: seq<Byte>)
    requires |bytes| >= 3
    ensures Sextets(bytes) == Group(bytes[0], bytes[1], bytes[2]) + Sextets(bytes[3..])
  {
  }

  lemma {:induction false} SextetsLength(bytes: seq<Byte>)
    ensures |Sextets(bytes)| == 4 * ((|bytes| + 2) / 3)
    decreases |bytes|
  {
    if |bytes| > 2 {
      SextetsLength(bytes[3..]);
    }
  }

  /** The output is 4 * ceil(n / 3) characters long. */
  lemma EncodeLength(bytes: seq<Byte>)
    ensures |Encode(bytes)| == 4 * ((|bytes| + 2) / 3)
  {
    SextetsLength(bytes);
  }

  /** Only the empty input has the empty encoding. */
  lemma EncodeEmpty(bytes: seq<Byte>)
    ensures Encode(bytes) == "" <==> bytes == []
  {
    EncodeLength(bytes);
  }

  /** Pads occur only in the last two positions: exactly two when the input
      length is 1 more than a multiple of three, exactly one when it is 2
      more, and none otherwise. */
  lemma {:induction false} SextetsPadding(bytes: seq<Byte>)
    ensures forall i :: 0 <= i < |Sextets(bytes)| ==>
      (Sextets(bytes)[i].Padding? <==>
        (i == |Sextets(bytes)| - 1 && |bytes| % 3 != 0) || (i == |Sextets(bytes)| - 2 && |bytes| % 3 == 1))
    decreases |bytes|
  {
    SextetsLength(bytes);
    if |bytes| > 2 {
      var g: seq<Symbol> := Group(bytes[0], bytes[1], bytes[2]);
      var t: seq<Symbol> := Sextets(bytes[3..]);
      SextetsUnfold(bytes);
      SextetsPadding(bytes[3..]);
      SextetsLength(bytes[3..]);
      forall i | 0 <= i < |g + t|
        ensures (g + t)[i].Padding? <==>
          (i == |g + t| - 1 && |bytes| % 3 != 0) || (i == |g + t| - 2 && |bytes| % 3 == 1)
      {
        if i >= 4 {
          assert (g + t)[i] == t[i - 4];
        }
      }
    }
  }

  /** Every character of the output is from the standard alphabet, except
      the pads of a final partial quantum: two of them when the input length
      is 1 more than a multiple of three, one when it is 2 more. */
  lemma EncodeAlphabet(bytes: seq<Byte>)
    ensures forall i :: 0 <= i < |Encode(bytes)| ==>
      IsAlphabetChar(Encode(bytes)[i]) || Encode(bytes)[i] == Pad
    ensures forall i :: 0 <= i < |Encode(bytes)| ==>
      (Encode(bytes)[i] == Pad <==>
        (i == |Encode(bytes)| - 1 && |bytes| % 3 != 0) || (i == |Encode(bytes)| - 2 && |bytes| % 3 == 1))
  {
    SextetsPadding(bytes);
  }

  // ---------------------------------------------------------------------
  // Decoding undoes encoding

  lemma ParseRender(syms: seq<Symbol>)
    ensures Parse(Render(syms)) == Some(syms)
  {
    var s := Render(syms);
    forall i | 0 <= i < |s|
      ensures IsAlphabetChar(s[i]) || s[i] == Pad
    {
      assert s[i] == CharOf(syms[i]);
    }
    var back := Parse(s).value;
    assert |back| == |syms|;
    forall i | 0 <= i < |syms|
      ensures back[i] == syms[i]
    {
      if syms[i].Sixbit? {
        ValueOfDigit(syms[i].value);
      }
    }
    assert back == syms;
  }

  lemma GroupRoundTrip(a: Byte, b: Byte, c: Byte)
    ensures DecodeGroup(Group(a, b, c)) == Some([a, b, c])
  {
  }

  lemma OneRoundTrip(a: Byte)
    ensures DecodeLast([Sixbit(a / 4), Sixbit((a % 4) * 16), Padding, Padding]) == Some([a])
  {
  }

  lemma TwoRoundTrip(a: Byte, b: Byte)
    ensures DecodeLast([Sixbit(a / 4), Sixbit((a % 4) * 16 + b / 16), Sixbit((b % 16) * 4), Padding]) == Some([a, b])
  {
  }

  lemma FullRoundTrip(a: Byte, b: Byte, c: Byte)
    ensures DecodeLast(Group(a, b, c)) == Some([a, b, c])
  {
    GroupRoundTrip(a, b, c);
  }

  lemma LastRoundTrip(bytes: seq<Byte>)
    requires 1 <= |bytes| <= 3
    ensures |Sextets(bytes)| == 4 && DecodeLast(Sextets(bytes)) == Some(bytes)
  {
    if |bytes| == 1 {
      var a := bytes[0];
      assert Sextets(bytes) == [Sixbit(a / 4), Sixbit((a % 4) * 16), Padding, Padding];
      OneRoundTrip(a);
      assert [a] == bytes;
    } else if |bytes| == 2 {
      var a, b := bytes[0], bytes[1];
      assert Sextets(bytes) == [Sixbit(a / 4), Sixbit((a % 4) * 16 + b / 16), Sixbit((b % 16) * 4), Padding];
      TwoRoundTrip(a, b);
      assert [a, b] == bytes;
    } else {
      var a, b, c := bytes[0], bytes[1], bytes[2];
      SextetsUnfold(bytes);
      assert Sextets(bytes[3..]) == [];
      assert Sextets(bytes) == Group(a, b, c);
      FullRoundTrip(a, b, c);
      assert [a, b, c] == bytes;
    }
  }

  lemma DecodeSymbolsCons(q: seq<Symbol>, t: seq<Symbol>)
    requires |q| == 4 && |t| >= 4
    ensures DecodeSymbols(q + t) ==
      match DecodeGroup(q)
      case None => None
      case Some(head) =>
        match DecodeSymbols(t)
        case None => None
        case Some(tail) => Some(head + tail)
  {
    assert (q + t)[..4] == q && (q + t)[4..] == t;
  }

  lemma {:induction false} SextetsRoundTrip(bytes: seq<Byte>)
    ensures DecodeSymbols(Sextets(bytes)) == Some(bytes)
    decreases |bytes|
  {
    if |bytes| == 0 {
    } else if |bytes| <= 3 {
      LastRoundTrip(bytes);
    } else {
      SextetsUnfold(bytes);
      SextetsLength(bytes[3..]);
      DecodeSymbolsCons(Group(bytes[0], bytes[1], bytes[2]), Sextets(bytes[3..]));
      GroupRoundTrip(bytes[0], bytes[1], bytes[2]);
      SextetsRoundTrip(bytes[3..]);
      assert [bytes[0], bytes[1], bytes[2]] + bytes[3..] == bytes;
    }
  }

  /** Decoding the encoding gives back the original bytes. */
  lemma RoundTrip(bytes: seq<Byte>)
    ensures Decode(Encode(bytes)) == Some(bytes)
  {
    ParseRender(Sextets(bytes));
    SextetsRoundTrip(bytes);
  }

  // ---------------------------------------------------------------------
  // Encoding undoes decoding

  lemma RenderParse(s: string, syms: seq<Symbol>)
    requires Parse(s) == Some(syms)
    ensures Render(syms) == s
  {
    forall i | 0 <= i < |s|
      ensures Render(syms)[i] == s[i]
    {
      assert syms[i] == SymbolOf(s[i]);
    }
  }

  /** Joining four 6-bit groups into three octets and splitting them again
      gives back the same groups. */
  lemma JoinSplitGroup(s0: Sextet, s1: Sextet, s2: Sextet, s3: Sextet)
    ensures var a, b, c := s0 * 4 + s1 / 16, (s1 % 16) * 16 + s2 / 4, (s2 % 4) * 64 + s3;
      a / 4 == s0 && (a % 4) * 16 + b / 16 == s1 && (b % 16) * 4 + c / 64 == s2 && c % 64 == s3
  {
    var a, b, c := s0 * 4 + s1 / 16, (s1 % 16) * 16 + s2 / 4, (s2 % 4) * 64 + s3;
    assert a / 4 == s0 && a % 4 == s1 / 16;
    assert b / 16 == s1 % 16 && b % 16 == s2 / 4;
    assert c / 64 == s2 % 4 && c % 64 == s3;
  }

  /** The same for a final quantum of 16 bits, whose pad bits are zero. */
  lemma JoinSplitTwo(s0: Sextet, s1: Sextet, s2: Sextet)
    requires s2 % 4 == 0
    ensures var a, b := s0 * 4 + s1 / 16, (s1 % 16) * 16 + s2 / 4;
      a / 4 == s0 && (a % 4) * 16 + b / 16 == s1 && (b % 16) * 4 == s2
  {
    var a, b := s0 * 4 + s1 / 16, (s1 % 16) * 16 + s2 / 4;
    assert a / 4 == s0 && a % 4 == s1 / 16;
    assert b / 16 == s1 % 16 && b % 16 == s2 / 4;
  }

  /** The same for a final quantum of 8 bits, whose pad bits are zero. */
  lemma JoinSplitOne(s0: Sextet, s1: Sextet)
    requires s1 % 16 == 0
    ensures var a := s0 * 4 + s1 / 16;
      a / 4 == s0 && (a % 4) * 16 == s1
  {
    var a := s0 * 4 + s1 / 16;
    assert a / 4 == s0 && a % 4 == s1 / 16;
  }

  lemma GroupCanonical(q: seq<Symbol>, out: seq<Byte>)
    requires |q| == 4 && DecodeGroup(q) == Some(out)
    ensures |out| == 3 && Group(out[0], out[1], out[2]) == q
  {
    JoinSplitGroup(q[0].value, q[1].value, q[2].value, q[3].value);
  }

  lemma OneCanonical(s0: Sextet, s1: Sextet)
    requires s1 % 16 == 0
    ensures Sextets([s0 * 4 + s1 / 16]) == [Sixbit(s0), Sixbit(s1), Padding, Padding]
  {
    JoinSplitOne(s0, s1);
  }

  lemma TwoCanonical(s0: Sextet, s1: Sextet, s2: Sextet)
    requires s2 % 4 == 0
    ensures Sextets([s0 * 4 + s1 / 16, (s1 % 16) * 16 + s2 / 4]) == [Sixbit(s0), Sixbit(s1), Sixbit(s2), Padding]
  {
    JoinSplitTwo(s0, s1, s2);
  }

  lemma FullCanonical(q: seq<Symbol>, out: seq<Byte>)
    requires |q| == 4 && DecodeGroup(q) == Some(out)
    ensures Sextets(out) == q
  {
    GroupCanonical(q, out);
    SextetsUnfold(out);
    assert out[3..] == [];
  }

  lemma LastCanonical(q: seq<Symbol>, out: seq<Byte>)
    requires |q| == 4 && DecodeLast(q) == Some(out)
    ensures 1 <= |out| <= 3 && Sextets(out) == q
  {
    if q[2].Padding? && q[3].Padding? {
      OnePadCanonical(q, out);
    } else if q[3].Padding? {
      TwoPadCanonical(q, out);
    } else {
      assert DecodeGroup(q) == Some(out);
      GroupCanonical(q, out);
      FullCanonical(q, out);
    }
  }

  lemma OnePadCanonical(q: seq<Symbol>, out: seq<Byte>)
    requires |q| == 4 && q[2].Padding? && q[3].Padding?
    requires DecodeLast(q) == Some(out)
    ensures |out| == 1 && Sextets(out) == q
  {
    var s0: int, s1: int := q[0].value, q[1].value;
    var a: Byte := s0 * 4 + s1 / 16;
    assert out == [a];
    OneCanonical(s0, s1);
    assert q == [Sixbit(s0), Sixbit(s1), Padding, Padding];
  }

  lemma TwoPadCanonical(q: seq<Symbol>, out: seq<Byte>)
    requires |q| == 4 && !q[2].Padding? && q[3].Padding?
    requires DecodeLast(q) == Some(out)
    ensures |out| == 2 && Sextets(out) == q
  {
    var s0: int, s1: int, s2: int := q[0].value, q[1].value, q[2].value;
    var a: Byte, b: Byte := s0 * 4 + s1 / 16, (s1 % 16) * 16 + s2 / 4;
    assert out == [a, b];
    TwoCanonical(s0, s1, s2);
    assert q == [Sixbit(s0), Sixbit(s1), Sixbit(s2), Padding];
  }

  lemma {:induction false} SymbolsCanonical(syms: seq<Symbol>, bytes: seq<Byte>)
    requires DecodeSymbols(syms) == Some(bytes)
    ensures Sextets(bytes) == syms
    decreases |syms|
  {
    if |syms| == 0 {
    } else if |syms| == 4 {
      LastCanonical(syms, bytes);
    } else {
      var head := DecodeGroup(syms[..4]).value;
      var tail := DecodeSymbols(syms[4..]).value;
      GroupCanonical(syms[..4], head);
      SymbolsCanonical(syms[4..], tail);
      assert tail != [];
      assert bytes == head + tail;
      SextetsUnfold(bytes);
      assert bytes[3..] == tail;
      assert syms == syms[..4] + syms[4..];
    }
  }

  /** Whatever the decoder accepts is the encoding of what it returns. */
  lemma DecodeCanonical(s: string, bytes: seq<Byte>)
    requires Decode(s) == Some(bytes)
    ensures Encode(bytes) == s
  {
    var syms := Parse(s).value;
    SymbolsCanonical(syms, bytes);
    RenderParse(s, syms);
  }

  /** Decoding and encoding are inverse on the whole of their domains: the
      decoder accepts canonical Base64 text and nothing else. */
  lemma DecodeIffEncode(s: string, bytes: seq<Byte>)
    ensures Decode(s) == Some(bytes) <==> Encode(bytes) == s
  {
    if Decode(s) == Some(bytes) {
      DecodeCanonical(s, bytes);
    }
    if Encode(bytes) == s {
      RoundTrip(bytes);
    }
  }

  /** Different byte strings never share an encoding. */
  lemma EncodeInjective(x: seq<Byte>, y: seq<Byte>)
    ensures Encode(x) == Encode(y) ==> x == y
  {
    RoundTrip(x);
    RoundTrip(y);
  }
}
