/**
 * The base64 codec declared in internal/xmpmeta/base64.h, written against
 * RFC 4648.
 *
 * The encoder emits the regular alphabet (section 4 of RFC 4648) and pads
 * with `=` to a multiple of four characters. The decoder accepts both the
 * regular and the web-safe alphabet (section 5 of RFC 4648: `-` for `+`,
 * `_` for `/`, padding omitted): every character is mapped to its sextet in
 * whichever alphabet holds it, and padding that is missing is rebuilt from
 * the length of the text modulo 4.
 *
 * The integer-array variants pack each 32-bit `int` into four bytes and
 * route the bytes through the byte codec. The byte order is not fixed by the
 * header, so it is a parameter, little-endian unless a caller says otherwise.
 */
module Base64Codec {
  import opened Wrappers

  type Byte = b: int | 0 <= b < 256

  /** Six bits: the value one base64 character stands for. */
  type Sextet = v: int | 0 <= v < 64

  /** A C++ `int`: a 32-bit two's-complement integer. */
  type Int32 = x: int | -0x8000_0000 <= x < 0x8000_0000

  datatype Alphabet = Regular | WebSafe

  datatype ByteOrder = LittleEndian | BigEndian

  // ---------------------------------------------------------------------------
  // Alphabets
  // ---------------------------------------------------------------------------

  /** The character for `v` in the regular (section 4) or web-safe (section 5) alphabet. */
  function CharOf(v: Sextet, a: Alphabet): char
  {
    if v < 26 then ('A' as int + v) as char
    else if v < 52 then ('a' as int + (v - 26)) as char
    else if v < 62 then ('0' as int + (v - 52)) as char
    else if v == 62 then (if a == Regular then '+' else '-')
    else (if a == Regular then '/' else '_')
  }

  /** The sextet a character stands for in either alphabet, or None for any other character. */
  function SextetOf(c: char): Option<Sextet>
  {
    if 'A' <= c <= 'Z' then Some(c as int - 'A' as int)
    else if 'a' <= c <= 'z' then Some(c as int - 'a' as int + 26)
    else if '0' <= c <= '9' then Some(c as int - '0' as int + 52)
    else if c == '+' || c == '-' then Some(62)
    else if c == '/' || c == '_' then Some(63)
    else None
  }

  predicate IsRegularChar(c: char)
  {
    'A' <= c <= 'Z' || 'a' <= c <= 'z' || '0' <= c <= '9' || c == '+' || c == '/'
  }

  predicate IsWebSafeChar(c: char)
  {
    'A' <= c <= 'Z' || 'a' <= c <= 'z' || '0' <= c <= '9' || c == '-' || c == '_'
  }

  predicate InAlphabet(c: char, a: Alphabet)
  {
    if a == Regular then IsRegularChar(c) else IsWebSafeChar(c)
  }

  /** The character the web-safe alphabet uses where the regular one has `c`. */
  function WebSafeChar(c: char): char
  {
    if c == '+' then '-' else if c == '/' then '_' else c
  }

  /** The characters the decoder maps to a sextet are exactly those of the two alphabets. */
  lemma SextetOfDefined(c: char)
    ensures SextetOf(c).Some? <==> IsRegularChar(c) || IsWebSafeChar(c)
  {
  }

  /** Each alphabet is inverted by SextetOf, and the two differ only in `+`/`-` and `/`/`_`. */
  lemma SextetOfCharOf(v: Sextet, a: Alphabet)
    ensures SextetOf(CharOf(v, a)) == Some(v)
    ensures InAlphabet(CharOf(v, a), a) && CharOf(v, a) != '='
    ensures WebSafeChar(CharOf(v, Regular)) == CharOf(v, WebSafe)
  {
  }

  /** The characters for a sequence of sextets. */
  function Chars(v: seq<Sextet>, a: Alphabet): (r: string)
    ensures |r| == |v|
  {
    seq(|v|, i requires 0 <= i < |v| => CharOf(v[i], a))
  }

  /** True when every character of `q` is in one of the two alphabets. */
  predicate AllSextets(q: string)
  {
    forall i :: 0 <= i < |q| ==> SextetOf(q[i]).Some?
  }

  /** The sextets of a text all of whose characters are in an alphabet. */
  function Sextets(q: string): (v: seq<Sextet>)
    requires AllSextets(q)
    ensures |v| == |q|
  {
    seq(|q|, i requires 0 <= i < |q| && AllSextets(q) => SextetOf(q[i]).value)
  }

  lemma SextetsOfChars(v: seq<Sextet>, a: Alphabet)
    ensures AllSextets(Chars(v, a)) && Sextets(Chars(v, a)) == v
    ensures forall i :: 0 <= i < |v| ==> InAlphabet(Chars(v, a)[i], a) && Chars(v, a)[i] != '='
  {
    forall i | 0 <= i < |v|
      ensures SextetOf(Chars(v, a)[i]) == Some(v[i])
      ensures InAlphabet(Chars(v, a)[i], a) && Chars(v, a)[i] != '='
    {
      SextetOfCharOf(v[i], a);
    }
  }

  // ---------------------------------------------------------------------------
  // Groups: up to three bytes as up to four sextets
  // ---------------------------------------------------------------------------

  /** One to three bytes as |g| + 1 sextets, the last one filled with zero bits on the right. */
  function SplitBytes(g: seq<Byte>): (v: seq<Sextet>)
    requires 1 <= |g| <= 3
    ensures |v| == |g| + 1
  {
    var b0 := g[0];
    var b1 := if |g| > 1 then g[1] else 0;
    var b2 := if |g| > 2 then g[2] else 0;
    [b0 / 4, (b0 % 4) * 16 + b1 / 16, (b1 % 16) * 4 + b2 / 64, b2 % 64][..|g| + 1]
  }

  /** Two to four sextets as |v| - 1 bytes; bits left over on the right are dropped. */
  function JoinSextets(v: seq<Sextet>): (g: seq<Byte>)
    requires 2 <= |v| <= 4
    ensures |g| == |v| - 1
  {
    var v0, v1: int := v[0], v[1];
    var v2: int := if |v| > 2 then v[2] else 0;
    var v3: int := if |v| > 3 then v[3] else 0;
    [v0 * 4 + v1 / 16, (v1 % 16) * 16 + v2 / 4, (v2 % 4) * 64 + v3][..|v| - 1]
  }

  /** Splitting three bytes into four sextets and joining them again loses nothing. */
  lemma RegroupBits(b0: Byte, b1: Byte, b2: Byte)
    ensures (b0 / 4) * 4 + ((b0 % 4) * 16 + b1 / 16) / 16 == b0
    ensures (((b0 % 4) * 16 + b1 / 16) % 16) * 16 + ((b1 % 16) * 4 + b2 / 64) / 4 == b1
    ensures (((b1 % 16) * 4 + b2 / 64) % 4) * 64 + b2 % 64 == b2
  {
    assert ((b0 % 4) * 16 + b1 / 16) / 16 == b0 % 4;
    assert ((b0 % 4) * 16 + b1 / 16) % 16 == b1 / 16;
    assert ((b1 % 16) * 4 + b2 / 64) / 4 == b1 % 16;
    assert ((b1 % 16) * 4 + b2 / 64) % 4 == b2 / 64;
  }

  lemma JoinSplit(g: seq<Byte>)
    requires 1 <= |g| <= 3
    ensures JoinSextets(SplitBytes(g)) == g
  {
    var b1 := if |g| > 1 then g[1] else 0;
    var b2 := if |g| > 2 then g[2] else 0;
    RegroupBits(g[0], b1, b2);
    var full := [g[0], b1, b2];
    assert JoinSextets(SplitBytes(g)) == full[..|g|];
    if |g| == 1 {
      assert full[..1] == [g[0]];
    } else if |g| == 2 {
      assert full[..2] == [g[0], g[1]];
    } else {
      assert full == g;
    }
  }

  // ---------------------------------------------------------------------------
  // Encoding
  // ---------------------------------------------------------------------------

  /** The `=` characters a text of length `n` lacks to reach a multiple of four. */
  function Padding(n: nat): (r: string)
    ensures forall i :: 0 <= i < |r| ==> r[i] == '='
  {
    if n % 4 == 2 then "==" else if n % 4 == 3 then "=" else ""
  }

  /**
   * The characters for one group of one to three bytes: |g| + 1 alphabet
   * characters, completed to four with `=` in the regular alphabet only.
   */
  function EncodeGroup(g: seq<Byte>, a: Alphabet): string
    requires 1 <= |g| <= 3
  {
    var v := SplitBytes(g);
    Chars(v, a) + (if a == Regular then Padding(|v|) else "")
  }

  /** Number of `=` the regular encoding of `n` bytes ends with. */
  function PadCount(n: nat): nat
  {
    (3 - n % 3) % 3
  }

  /** Position `i` of an encoding carries `=` if it is among the last `pad` of a regular text, else an alphabet character. */
  predicate EncodedCharAt(r: string, i: nat, pad: nat, a: Alphabet)
    requires i < |r|
  {
    if a == Regular && |r| - i <= pad then r[i] == '=' else InAlphabet(r[i], a)
  }

  /**
   * Characters encoding a group of `m` bytes, none for an empty group: a
   * regular group is padded to four characters, a web-safe one is not.
   */
  function TailLength(m: nat, a: Alphabet): nat
  {
    if m == 0 then 0 else if a == Regular then 4 else m + 1
  }

  /** Length and characters of one group's encoding: a regular short group ends in PadCount(|g|) `=`. */
  lemma EncodeGroupFacts(g: seq<Byte>, a: Alphabet)
    requires 1 <= |g| <= 3
    ensures |EncodeGroup(g, a)| == TailLength(|g|, a)
    ensures forall i :: 0 <= i < |EncodeGroup(g, a)| ==> EncodedCharAt(EncodeGroup(g, a), i, PadCount(|g|), a)
  {
    var v := SplitBytes(g);
    var e := EncodeGroup(g, a);
    SextetsOfChars(v, a);
    forall i | 0 <= i < |e|
      ensures EncodedCharAt(e, i, PadCount(|g|), a)
    {
      if i < |v| {
        assert e[i] == Chars(v, a)[i];
      } else {
        assert e[i] == Padding(|v|)[i - |v|];
      }
    }
  }

  /**
   * Encoding in either alphabet, three bytes at a time: four characters per
   * full group, and for a last group of one or two bytes four characters in
   * the regular alphabet (padded) or two or three in the web-safe one.
   */
  function Encode(s: seq<Byte>, a: Alphabet): (r: string)
    ensures |r| == 4 * (|s| / 3) + TailLength(|s| % 3, a)
    decreases |s|
  {
    if |s| == 0 then []
    else if |s| < 3 then
      EncodeGroupFacts(s, a);
      EncodeGroup(s, a)
    else
      EncodeGroupFacts(s[..3], a);
      assert |s| / 3 == |s[3..]| / 3 + 1 && |s| % 3 == |s[3..]| % 3;
      EncodeGroup(s[..3], a) + Encode(s[3..], a)
  }

  /** An encoding is never 1 modulo 4 characters long. */
  lemma EncodeLengthMod(n: nat, a: Alphabet)
    ensures (4 * (n / 3) + TailLength(n % 3, a)) % 4 == TailLength(n % 3, a) % 4 != 1
  {
    var k := n / 3;
    assert (4 * k + TailLength(n % 3, a)) % 4 == TailLength(n % 3, a) % 4;
  }

  /**
   * Every character of an encoding is in its alphabet, except that the
   * regular text ends in exactly PadCount(n) `=`.
   */
  lemma {:induction false} EncodeAlphabet(s: seq<Byte>, a: Alphabet)
    ensures forall i :: 0 <= i < |Encode(s, a)| ==> EncodedCharAt(Encode(s, a), i, PadCount(|s|), a)
    decreases |s|
  {
    if 0 < |s| < 3 {
      EncodeGroupFacts(s, a);
    } else if |s| >= 3 {
      var g, rest := EncodeGroup(s[..3], a), Encode(s[3..], a);
      EncodeGroupFacts(s[..3], a);
      EncodeAlphabet(s[3..], a);
      var r := Encode(s, a);
      assert r == g + rest;
      assert PadCount(|s|) == PadCount(|s[3..]|);
      assert |s[3..]| > 0 ==> |rest| >= 2 && (a == Regular ==> |rest| >= 4);
      forall i | 0 <= i < |r|
        ensures EncodedCharAt(r, i, PadCount(|s|), a)
      {
        if i >= 4 {
          var j := i - 4;
          assert EncodedCharAt(rest, j, PadCount(|s[3..]|), a);
          assert r[i] == rest[j] && |rest| - j == |r| - i;
        } else {
          assert EncodedCharAt(g, i, 0, a);
          assert r[i] == g[i];
          assert |r| - i > PadCount(|s|);
        }
      }
    }
  }

  /**
   * EncodeBase64 (internal/xmpmeta/base64.h:30-31): regular alphabet, `=`
   * padding, 4 * ceil(n / 3) characters for n bytes, `=` exactly in the
   * last PadCount(n) positions.
   */
  function EncodeBase64(s: seq<Byte>): (r: string)
    ensures |r| == 4 * ((|s| + 2) / 3)
    ensures forall i :: 0 <= i < |r| ==> IsRegularChar(r[i]) || r[i] == '='
    ensures forall i :: 0 <= i < |r| ==> (r[i] == '=' <==> |r| - i <= PadCount(|s|))
  {
    var r := Encode(s, Regular);
    EncodeAlphabet(s, Regular);
    assert |r| == 4 * ((|s| + 2) / 3);
    assert forall i :: 0 <= i < |r| ==>
      (IsRegularChar(r[i]) || r[i] == '=') && (r[i] == '=' <==> |r| - i <= PadCount(|s|))
    by {
      forall i | 0 <= i < |r|
        ensures (IsRegularChar(r[i]) || r[i] == '=') && (r[i] == '=' <==> |r| - i <= PadCount(|s|))
      {
        assert EncodedCharAt(r, i, PadCount(|s|), Regular);
      }
    }
    r
  }

  /** `+` to `-` and `/` to `_`, character by character. */
  function WebSafeChars(t: string): (r: string)
    ensures |r| == |t|
  {
    seq(|t|, i requires 0 <= i < |t| => WebSafeChar(t[i]))
  }

  /** The text without the `=` it ends with. */
  function StripPadding(t: string): string
    decreases |t|
  {
    if |t| > 0 && t[|t| - 1] == '=' then StripPadding(t[..|t| - 1]) else t
  }

  /** The web-safe form of a regular text: alphabet substituted, trailing `=` dropped. */
  function ToWebSafe(t: string): string
  {
    StripPadding(WebSafeChars(t))
  }

  // ---------------------------------------------------------------------------
  // Decoding
  // ---------------------------------------------------------------------------

  /**
   * Characters of a quad that carry data: in the final quad a trailing `==`
   * leaves two and a trailing `=` three; otherwise all four.
   */
  function DataLength(q: string, last: bool): (n: nat)
    requires |q| == 4
    ensures 2 <= n <= 4
  {
    if last && q[2] == '=' && q[3] == '=' then 2
    else if last && q[3] == '=' then 3
    else 4
  }

  /** One quad: its data characters must all be in an alphabet and give DataLength - 1 bytes. */
  function DecodeQuad(q: string, last: bool): Option<seq<Byte>>
    requires |q| == 4
  {
    var d := q[..DataLength(q, last)];
    if AllSextets(d) then Some(JoinSextets(Sextets(d))) else None
  }

  /** Text whose length is a multiple of four, quad by quad; only the final quad may be padded. */
  function DecodeQuads(t: string): Option<seq<Byte>>
    requires |t| % 4 == 0
    decreases |t|
  {
    if |t| == 0 then Some([])
    else if |t| == 4 then DecodeQuad(t, true)
    else
      match DecodeQuad(t[..4], false)
      case None => None
      case Some(head) =>
        match DecodeQuads(t[4..])
        case None => None
        case Some(tail) => Some(head + tail)
  }

  /** The text completed with the padding its length lacks. */
  function Repad(t: string): (r: string)
    requires |t| % 4 != 1
    ensures |r| % 4 == 0
  {
    t + Padding(|t|)
  }

  /**
   * DecodeBase64 (internal/xmpmeta/base64.h:25-28). A length of 1 modulo 4
   * cannot be completed by padding and fails; otherwise the missing padding
   * is appended and the quads are decoded. Success means that every
   * character is in one of the two alphabets, except for `=` in the last two
   * positions.
   */
  function DecodeBase64(t: string): (r: Option<seq<Byte>>)
    ensures |t| % 4 == 1 ==> r == None
    ensures |StripPadding(t)| % 4 == 1 ==> r == None
    ensures r.Some? ==> forall i :: 0 <= i < |t| ==>
      SextetOf(t[i]).Some? || (t[i] == '=' && i >= |t| - 2)
  {
    if |t| % 4 == 1 then None
    else
      var p := Repad(t);
      DecodedQuadsAreWellFormed(p);
      ShortUnpaddedTextRejected(t);
      assert forall i :: 0 <= i < |t| ==> p[i] == t[i];
      DecodeQuads(p)
  }

  /** What StripPadding keeps is a prefix, and all it drops is `=`. */
  lemma {:induction false} StripPaddingFacts(t: string)
    ensures |StripPadding(t)| <= |t| && StripPadding(t) == t[..|StripPadding(t)|]
    ensures forall i :: |StripPadding(t)| <= i < |t| ==> t[i] == '='
    decreases |t|
  {
    if |t| > 0 && t[|t| - 1] == '=' {
      var u := t[..|t| - 1];
      StripPaddingFacts(u);
      assert StripPadding(t) == StripPadding(u);
      assert u[..|StripPadding(u)|] == t[..|StripPadding(u)|];
      forall i | |StripPadding(t)| <= i < |t|
        ensures t[i] == '='
      {
        if i < |t| - 1 {
          assert t[i] == u[i];
        }
      }
    }
  }

  /**
   * Text whose length without its `=` padding is 1 modulo 4 does not decode:
   * its first `=` falls at the second position of a quad.
   */
  lemma ShortUnpaddedTextRejected(t: string)
    requires |t| % 4 != 1
    ensures |StripPadding(t)| % 4 == 1 ==> DecodeQuads(Repad(t)) == None
  {
    var k := |StripPadding(t)|;
    if k % 4 == 1 {
      var p := Repad(t);
      StripPaddingFacts(t);
      assert k < |t|;
      assert p[k] == t[k] == '=';
      assert SextetOf('=').None?;
      assert k < |p| - 2;
      DecodedQuadsAreWellFormed(p);
    }
  }

  /** A quad decodes only if its characters are in an alphabet, but for `=` closing the final quad. */
  lemma DecodedQuadIsWellFormed(q: string, last: bool)
    requires |q| == 4
    ensures DecodeQuad(q, last).Some? ==> forall i :: 0 <= i < 4 ==>
      SextetOf(q[i]).Some? || (q[i] == '=' && i >= 2 && last)
  {
    var n := DataLength(q, last);
    if DecodeQuad(q, last).Some? {
      forall i | 0 <= i < 4
        ensures SextetOf(q[i]).Some? || (q[i] == '=' && i >= 2 && last)
      {
        if i < n {
          assert q[..n][i] == q[i];
        }
      }
    }
  }

  /** A text decodes only if it consists of alphabet characters and at most two closing `=`. */
  lemma {:induction false} DecodedQuadsAreWellFormed(t: string)
    requires |t| % 4 == 0
    ensures DecodeQuads(t).Some? ==> forall i :: 0 <= i < |t| ==>
      SextetOf(t[i]).Some? || (t[i] == '=' && i >= |t| - 2)
    decreases |t|
  {
    if |t| == 4 {
      DecodedQuadIsWellFormed(t, true);
    } else if |t| > 4 && DecodeQuads(t).Some? {
      DecodedQuadIsWellFormed(t[..4], false);
      DecodedQuadsAreWellFormed(t[4..]);
      forall i | 0 <= i < |t|
        ensures SextetOf(t[i]).Some? || (t[i] == '=' && i >= |t| - 2)
      {
        if i < 4 {
          assert t[i] == t[..4][i];
        } else {
          assert t[i] == t[4..][i - 4];
        }
      }
    }
  }

  /** A character in neither alphabet, other than `=`, always makes decoding fail. */
  lemma ForeignCharacterRejected(t: string, i: nat)
    requires i < |t| && SextetOf(t[i]).None? && t[i] != '='
    ensures DecodeBase64(t) == None
  {
  }

  // ---------------------------------------------------------------------------
  // Round trips
  // ---------------------------------------------------------------------------

  /** One group, padded back to four characters, decodes to the bytes it encodes. */
  lemma GroupRoundTrip(g: seq<Byte>, a: Alphabet, last: bool)
    requires 1 <= |g| <= 3
    requires |g| < 3 ==> last
    ensures |EncodeGroup(g, a)| == TailLength(|g|, a)
    ensures |Repad(EncodeGroup(g, a))| == 4
    ensures DecodeQuad(Repad(EncodeGroup(g, a)), last) == Some(g)
  {
    var v := SplitBytes(g);
    var c := Chars(v, a);
    SextetsOfChars(v, a);
    var q := Repad(EncodeGroup(g, a));
    assert q == c + Padding(|v|);
    assert DataLength(q, last) == |v| by {
      if |v| < 4 {
        assert q[3] == '=';
        assert q[2] == '=' <==> |v| == 2;
      } else {
        assert q[3] == c[3];
      }
    }
    assert q[..|v|] == c;
    JoinSplit(g);
  }

  lemma PaddingShift(n: nat)
    ensures Padding(n + 4) == Padding(n)
  {
    assert (n + 4) % 4 == n % 4;
  }

  /** A full leading quad followed by more quads decodes to the concatenation. */
  lemma DecodeQuadsCons(g: string, rest: string)
    requires |g| == 4 && |rest| % 4 == 0 && |rest| > 0
    ensures DecodeQuads(g + rest) ==
      match DecodeQuad(g, false)
      case None => None
      case Some(head) =>
        match DecodeQuads(rest)
        case None => None
        case Some(tail) => Some(head + tail)
  {
    assert (g + rest)[..4] == g;
    assert (g + rest)[4..] == rest;
  }

  /** A group of three followed by an encoding that round-trips gives an encoding that round-trips. */
  lemma EncodeRoundTripStep(s: seq<Byte>, a: Alphabet)
    requires |s| >= 3
    requires |Encode(s[3..], a)| % 4 != 1
    requires DecodeQuads(Repad(Encode(s[3..], a))) == Some(s[3..])
    ensures |Encode(s, a)| % 4 != 1
    ensures DecodeQuads(Repad(Encode(s, a))) == Some(s)
  {
    var e := Encode(s, a);
    var g, rest := EncodeGroup(s[..3], a), Encode(s[3..], a);
    GroupRoundTrip(s[..3], a, |s| == 3);
    assert e == g + rest;
    assert |g| == 4;
    PaddingShift(|rest|);
    assert Repad(g) == g;
    assert s == s[..3] + s[3..];
    if |s| == 3 {
      assert Repad(e) == g;
      assert DecodeQuad(Repad(g), true) == Some(s[..3]);
      assert s[..3] == s;
      assert DecodeQuads(Repad(e)) == DecodeQuad(g, true);
    } else {
      assert Repad(e) == g + Repad(rest);
      DecodeQuadsCons(g, Repad(rest));
    }
  }

  /** Encoded text with its padding restored decodes to the original bytes, in either alphabet. */
  lemma {:induction false} EncodeRoundTrip(s: seq<Byte>, a: Alphabet)
    ensures |Encode(s, a)| % 4 != 1
    ensures DecodeQuads(Repad(Encode(s, a))) == Some(s)
    decreases |s|
  {
    var e := Encode(s, a);
    if |s| == 0 {
    } else if |s| < 3 {
      assert e == EncodeGroup(s, a);
      GroupRoundTrip(s, a, true);
      assert |Repad(e)| == 4;
      assert DecodeQuads(Repad(e)) == DecodeQuad(Repad(e), true);
    } else {
      EncodeRoundTrip(s[3..], a);
      EncodeRoundTripStep(s, a);
    }
  }


  /** Round trip of the byte codec (internal/xmpmeta/base64.h:25-31). */
  lemma DecodeEncode(s: seq<Byte>)
    ensures DecodeBase64(EncodeBase64(s)) == Some(s)
  {
    EncodeRoundTrip(s, Regular);
  }

  lemma {:induction false} StripAppend(x: string, y: string)
    requires |x| > 0 ==> x[|x| - 1] != '='
    ensures StripPadding(x + y) == x + StripPadding(y)
    decreases |y|
  {
    if |y| > 0 && y[|y| - 1] == '=' {
      assert (x + y)[..|x + y| - 1] == x + y[..|y| - 1];
      StripAppend(x, y[..|y| - 1]);
    } else if |y| == 0 {
      assert x + y == x;
    }
  }

  lemma StripPaddingOfPadding(n: nat)
    ensures StripPadding(Padding(n)) == []
  {
    assert StripPadding("=") == [];
    assert "=="[..1] == "=";
  }

  /** Web-safe substitution of one group is the web-safe group, followed by the regular padding. */
  lemma WebSafeCharsOfGroup(g: seq<Byte>)
    requires 1 <= |g| <= 3
    ensures WebSafeChars(EncodeGroup(g, Regular)) == EncodeGroup(g, WebSafe) + Padding(|g| + 1)
  {
    var v := SplitBytes(g);
    forall i | 0 <= i < |v|
      ensures WebSafeChar(CharOf(v[i], Regular)) == CharOf(v[i], WebSafe)
    {
      SextetOfCharOf(v[i], Regular);
    }
  }

  /** The web-safe form of a regular encoding is the web-safe encoding. */
  lemma {:induction false} ToWebSafeOfEncode(s: seq<Byte>)
    ensures ToWebSafe(Encode(s, Regular)) == Encode(s, WebSafe)
    decreases |s|
  {
    if 0 < |s| < 3 {
      var w := EncodeGroup(s, WebSafe);
      WebSafeCharsOfGroup(s);
      SextetsOfChars(SplitBytes(s), WebSafe);
      StripAppend(w, Padding(|s| + 1));
      StripPaddingOfPadding(|s| + 1);
    } else if |s| >= 3 {
      var g, rest := EncodeGroup(s[..3], Regular), Encode(s[3..], Regular);
      var wg := EncodeGroup(s[..3], WebSafe);
      WebSafeCharsOfGroup(s[..3]);
      SextetsOfChars(SplitBytes(s[..3]), WebSafe);
      assert wg[3] != '=';
      assert WebSafeChars(g + rest) == wg + WebSafeChars(rest);
      StripAppend(wg, WebSafeChars(rest));
      ToWebSafeOfEncode(s[3..]);
    }
  }

  /**
   * The decoder accepts the web-safe form of any regular encoding and yields
   * the same bytes as from the regular text (internal/xmpmeta/base64.h:25-28).
   */
  lemma DecodeWebSafeForm(s: seq<Byte>)
    ensures DecodeBase64(ToWebSafe(EncodeBase64(s))) == DecodeBase64(EncodeBase64(s)) == Some(s)
  {
    ToWebSafeOfEncode(s);
    EncodeRoundTrip(s, WebSafe);
    DecodeEncode(s);
  }

  /** The example vector: bytes 00 FF 10 are "AP8Q", and decode back from it and from its web-safe form. */
  lemma KnownVector()
    ensures EncodeBase64([0x00, 0xFF, 0x10]) == "AP8Q"
    ensures ToWebSafe("AP8Q") == "AP8Q"
    ensures DecodeBase64("AP8Q") == Some([0x00, 0xFF, 0x10])
  {
    var x: seq<Byte> := [0x00, 0xFF, 0x10];
    assert SplitBytes(x) == [0, 15, 60, 16];
    assert CharOf(0, Regular) == 'A' && CharOf(15, Regular) == 'P';
    assert CharOf(60, Regular) == '8' && CharOf(16, Regular) == 'Q';
    assert Chars([0, 15, 60, 16], Regular) == "AP8Q";
    assert EncodeGroup(x, Regular) == "AP8Q";
    assert x[..3] == x && x[3..] == [];
    assert Encode(x, Regular) == "AP8Q" + Encode([], Regular);
    assert WebSafeChars("AP8Q") == "AP8Q";
    DecodeEncode(x);
  }

  // ---------------------------------------------------------------------------
  // Integer arrays
  // ---------------------------------------------------------------------------

  /** The 32-bit pattern of an `int`, as an unsigned value. */
  function TwosComplement(x: Int32): (u: nat)
    ensures u < 0x1_0000_0000
  {
    if x < 0 then x + 0x1_0000_0000 else x
  }

  /** The four bytes of one `int`, least significant first for LittleEndian. */
  function PackInt(x: Int32, order: ByteOrder): (b: seq<Byte>)
    ensures |b| == 4
  {
    var u0 := TwosComplement(x);
    var u1 := u0 / 256;
    var u2 := u1 / 256;
    var u3 := u2 / 256;
    var le: seq<Byte> := [u0 % 256, u1 % 256, u2 % 256, u3 % 256];
    if order == LittleEndian then le else [le[3], le[2], le[1], le[0]]
  }

  /** The `int` four bytes stand for. */
  function UnpackInt(b: seq<Byte>, order: ByteOrder): Int32
    requires |b| == 4
  {
    var le: seq<int> := if order == LittleEndian then b else [b[3], b[2], b[1], b[0]];
    var u: int := le[0] + 256 * (le[1] + 256 * (le[2] + 256 * le[3]));
    if u < 0x8000_0000 then u else u - 0x1_0000_0000
  }

  /** `x` is `r + 256 * q` with `r` a byte: its low byte and the rest. */
  lemma ByteSplit(x: int, r: int, q: int)
    requires 0 <= r < 256 && x == r + 256 * q
    ensures x % 256 == r && x / 256 == q
  {
  }

  /** Packing loses nothing, in either byte order. */
  lemma UnpackPackInt(x: Int32, order: ByteOrder)
    ensures UnpackInt(PackInt(x, order), order) == x
  {
    var u0 := TwosComplement(x);
    var u1 := u0 / 256;
    var u2 := u1 / 256;
    var u3 := u2 / 256;
    ByteSplit(u0, u0 % 256, u1);
    ByteSplit(u1, u1 % 256, u2);
    ByteSplit(u2, u2 % 256, u3);
    assert u3 < 256 && u3 % 256 == u3;
    var le: seq<int> := [u0 % 256, u1 % 256, u2 % 256, u3 % 256];
    var b := PackInt(x, order);
    var back: seq<int> := if order == LittleEndian then b else [b[3], b[2], b[1], b[0]];
    assert back == le;
    assert le[0] + 256 * (le[1] + 256 * (le[2] + 256 * le[3])) == u0;
  }

  /** The bytes of an array of `int`s: four per element, in element order. */
  function PackInts(v: seq<Int32>, order: ByteOrder): (b: seq<Byte>)
    ensures |b| == 4 * |v|
  {
    if v == [] then [] else PackInt(v[0], order) + PackInts(v[1..], order)
  }

  /** The `int`s of a byte sequence whose length is a multiple of four. */
  function UnpackInts(b: seq<Byte>, order: ByteOrder): (v: seq<Int32>)
    requires |b| % 4 == 0
    ensures 4 * |v| == |b|
    decreases |b|
  {
    if b == [] then [] else [UnpackInt(b[..4], order)] + UnpackInts(b[4..], order)
  }

  /** Element `k` of an array occupies bytes 4k to 4k + 3 of its packing. */
  lemma {:induction false} PackIntsAt(v: seq<Int32>, order: ByteOrder, k: nat)
    requires k < |v|
    ensures PackInts(v, order)[4 * k..4 * k + 4] == PackInt(v[k], order)
    decreases k
  {
    var b := PackInts(v, order);
    assert b == PackInt(v[0], order) + PackInts(v[1..], order);
    if k > 0 {
      PackIntsAt(v[1..], order, k - 1);
      assert b[4 * k..4 * k + 4] == PackInts(v[1..], order)[4 * (k - 1)..4 * (k - 1) + 4];
    }
  }

  lemma {:induction false} UnpackPackInts(v: seq<Int32>, order: ByteOrder)
    ensures UnpackInts(PackInts(v, order), order) == v
    decreases |v|
  {
    if v != [] {
      var b := PackInts(v, order);
      assert b[..4] == PackInt(v[0], order);
      assert b[4..] == PackInts(v[1..], order);
      UnpackPackInt(v[0], order);
      UnpackPackInts(v[1..], order);
      assert v == [v[0]] + v[1..];
    }
  }

  /**
   * EncodeIntArrayBase64 (internal/xmpmeta/base64.h:33-34): the packed
   * bytes, base64-encoded; 4 * ceil(4n / 3) characters for n `int`s.
   */
  function EncodeIntArrayBase64(v: seq<Int32>, order: ByteOrder := LittleEndian): (t: string)
    ensures |t| == 4 * ((4 * |v| + 2) / 3)
  {
    EncodeBase64(PackInts(v, order))
  }

  /** Four bytes unpacked and packed again, in the same byte order, are unchanged. */
  lemma PackUnpackInt(b: seq<Byte>, order: ByteOrder)
    requires |b| == 4
    ensures PackInt(UnpackInt(b, order), order) == b
  {
    var le: seq<int> := if order == LittleEndian then b else [b[3], b[2], b[1], b[0]];
    var w2 := le[2] + 256 * le[3];
    var w1 := le[1] + 256 * w2;
    var u := le[0] + 256 * w1;
    assert TwosComplement(UnpackInt(b, order)) == u;
    ByteSplit(u, le[0], w1);
    ByteSplit(w1, le[1], w2);
    ByteSplit(w2, le[2], le[3]);
    ByteSplit(le[3], le[3], 0);
  }

  lemma {:induction false} PackUnpackInts(b: seq<Byte>, order: ByteOrder)
    requires |b| % 4 == 0
    ensures PackInts(UnpackInts(b, order), order) == b
    decreases |b|
  {
    if b != [] {
      var v := UnpackInts(b, order);
      assert v[0] == UnpackInt(b[..4], order) && v[1..] == UnpackInts(b[4..], order);
      PackUnpackInt(b[..4], order);
      PackUnpackInts(b[4..], order);
      assert b == b[..4] + b[4..];
    }
  }

  /**
   * DecodeIntArrayBase64 (internal/xmpmeta/base64.h:36-37): succeeds exactly
   * when the text decodes to a whole number of `int`s, four bytes each, and
   * then the `int`s are the ones those bytes pack.
   */
  function DecodeIntArrayBase64(t: string, order: ByteOrder := LittleEndian): (r: Option<seq<Int32>>)
    ensures r.Some? <==> DecodeBase64(t).Some? && |DecodeBase64(t).value| % 4 == 0
    ensures r.Some? ==> 4 * |r.value| == |DecodeBase64(t).value|
    ensures r.Some? ==> PackInts(r.value, order) == DecodeBase64(t).value
  {
    match DecodeBase64(t)
    case None => None
    case Some(b) =>
      if |b| % 4 == 0 then
        PackUnpackInts(b, order);
        Some(UnpackInts(b, order))
      else None
  }

  /** The encoding of whole `int`s' worth of bytes decodes to the `int`s those bytes pack. */
  lemma DecodeEncodedBytes(b: seq<Byte>, order: ByteOrder)
    requires |b| % 4 == 0
    ensures DecodeIntArrayBase64(EncodeBase64(b), order) == Some(UnpackInts(b, order))
  {
    DecodeEncode(b);
  }

  /** Round trip of the integer-array codec (internal/xmpmeta/base64.h:33-37). */
  lemma DecodeEncodeIntArray(v: seq<Int32>, order: ByteOrder)
    ensures DecodeIntArrayBase64(EncodeIntArrayBase64(v, order), order) == Some(v)
  {
    DecodeEncodedBytes(PackInts(v, order), order);
    UnpackPackInts(v, order);
  }
}
