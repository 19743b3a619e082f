/**
 * Base64 with the standard alphabet (`A-Z a-z 0-9 + /`) and `=` padding, as
 * section 4 of RFC 4648 defines it, and the lenient decoder that the browser's
 * `atob` applies to its argument (the "forgiving-base64 decode" algorithm of
 * the WHATWG Infra standard): ASCII whitespace is dropped, padding is optional
 * and the unused low bits of a final partial quantum are ignored.
 */
module Base64 {
  import opened Wrappers

  /** One octet, the element type of a `Uint8Array`. */
  type Byte = b: int | 0 <= b < 256

  predicate IsAlphabetChar(c: char) {
    'A' <= c <= 'Z' || 'a' <= c <= 'z' || '0' <= c <= '9' || c == '+' || c == '/'
  }

  predicate AllAlphabet(s: string) {
    forall i | 0 <= i < |s| :: IsAlphabetChar(s[i])
  }

  /** The character that stands for the 6-bit value `v` (Table 1 of RFC 4648). */
  function CharOf(v: int): (c: char)
    requires 0 <= v < 64
    ensures IsAlphabetChar(c) && c != '='
  {
    if v < 26 then ('A' as int + v) as char
    else if v < 52 then ('a' as int + (v - 26)) as char
    else if v < 62 then ('0' as int + (v - 52)) as char
    else if v == 62 then '+'
    else '/'
  }

  /** The 6-bit value an alphabet character stands for; inverse of CharOf. */
  function ValueOf(c: char): (v: int)
    requires IsAlphabetChar(c)
    ensures 0 <= v < 64 && CharOf(v) == c
  {
    if 'A' <= c <= 'Z' then c as int - 'A' as int
    else if 'a' <= c <= 'z' then c as int - 'a' as int + 26
    else if '0' <= c <= '9' then c as int - '0' as int + 52
    else if c == '+' then 62
    else 63
  }

  lemma ValueOfCharOf(v: int)
    requires 0 <= v < 64
    ensures ValueOf(CharOf(v)) == v
  {
  }

  /** A 6-bit value. */
  type Sextet = v: int | 0 <= v < 64

  /**
   * In a quantum of `groups` 6-bit groups, the last group carries this many
   * values per octet bit it holds: 16 for two groups (4 unused low bits), 4
   * for three (2 unused bits), 1 for four (none unused).
   */
  function UnusedModulus(groups: int): int {
    if groups == 2 then 16 else if groups == 3 then 4 else 1
  }

  /**
   * One quantum of one to three octets read as a big-endian bit string and
   * cut into two to four 6-bit groups; the unused low bits of the last group
   * are zero (section 3.5 of RFC 4648).
   */
  function Sextets(q: seq<Byte>): (v: seq<Sextet>)
    requires 1 <= |q| <= 3
    ensures |v| == |q| + 1
    ensures v[|q|] % UnusedModulus(|v|) == 0
  {
    var b0: int, b1: int := q[0], if |q| >= 2 then q[1] else 0;
    var b2: int := if |q| == 3 then q[2] else 0;
    if |q| == 1 then [b0 / 4, b0 % 4 * 16]
    else if |q| == 2 then [b0 / 4, b0 % 4 * 16 + b1 / 16, b1 % 16 * 4]
    else [b0 / 4, b0 % 4 * 16 + b1 / 16, b1 % 16 * 4 + b2 / 64, b2 % 64]
  }

  /** Two to four 6-bit groups back to one to three octets; leftover bits are discarded. */
  function Octets(v: seq<Sextet>): (q: seq<Byte>)
    requires 2 <= |v| <= 4
    ensures |q| == |v| - 1
  {
    var v0: int, v1: int := v[0], v[1];
    var v2: int, v3: int := if |v| >= 3 then v[2] else 0, if |v| == 4 then v[3] else 0;
    if |v| == 2 then [v0 * 4 + v1 / 16]
    else if |v| == 3 then [v0 * 4 + v1 / 16, v1 % 16 * 16 + v2 / 4]
    else [v0 * 4 + v1 / 16, v1 % 16 * 16 + v2 / 4, v2 % 4 * 64 + v3]
  }

  /** Regrouping the bits of a quantum is undone by grouping them back. */
  lemma OctetsSextets(q: seq<Byte>)
    requires 1 <= |q| <= 3
    ensures Octets(Sextets(q)) == q
  {
    var d := Octets(Sextets(q));
    assert d[0] == q[0];
    if |q| >= 2 {
      assert d[1] == q[1];
    }
    if |q| == 3 {
      assert d[2] == q[2];
    }
  }

  /** Grouping ignores the unused low bits of the last group: groups that differ only there give the same octets. */
  lemma OctetsIgnoresUnusedBits(v: seq<Sextet>, w: seq<Sextet>)
    requires 2 <= |v| <= 4 && |w| == |v|
    requires v[..|v| - 1] == w[..|w| - 1]
    requires v[|v| - 1] / UnusedModulus(|v|) == w[|w| - 1] / UnusedModulus(|w|)
    ensures Octets(v) == Octets(w)
  {
    assert v[0] == w[0];
    if |v| >= 3 {
      assert v[1] == w[1];
    }
    if |v| == 4 {
      assert v[2] == w[2];
    }
  }

  /**
   * Splitting is the canonical inverse of grouping: groups whose unused bits
   * are zero are exactly the split of the octets they stand for.
   */
  lemma SextetsOctets(v: seq<Sextet>)
    requires 2 <= |v| <= 4 && v[|v| - 1] % UnusedModulus(|v|) == 0
    ensures Sextets(Octets(v)) == v
  {
    var e := Sextets(Octets(v));
    assert e[0] == v[0];
    assert e[1] == v[1];
    if |v| >= 3 {
      assert e[2] == v[2];
    }
    if |v| == 4 {
      assert e[3] == v[3];
    }
  }

  /** Each 6-bit value as its alphabet character. */
  function CharsOf(v: seq<Sextet>): (s: string)
    ensures |s| == |v| && AllAlphabet(s)
  {
    seq(|v|, i requires 0 <= i < |v| => CharOf(v[i]))
  }

  /** Each alphabet character as its 6-bit value. */
  function ValuesOf(s: string): (v: seq<Sextet>)
    requires AllAlphabet(s)
    ensures |v| == |s|
  {
    seq(|s|, i requires 0 <= i < |s| => ValueOf(s[i]))
  }

  lemma ValuesOfCharsOf(v: seq<Sextet>)
    ensures ValuesOf(CharsOf(v)) == v
  {
    forall i | 0 <= i < |v| ensures ValuesOf(CharsOf(v))[i] == v[i] {
      ValueOfCharOf(v[i]);
    }
  }

  /** One quantum of one to three octets as two to four alphabet characters. */
  function EncodeQuantum(q: seq<Byte>): (s: string)
    requires 1 <= |q| <= 3
    ensures |s| == |q| + 1 && AllAlphabet(s)
  {
    CharsOf(Sextets(q))
  }

  /** The encoded characters before any padding, one quantum after another. */
  function EncodeChunks(b: seq<Byte>): (s: string)
    ensures |s| == 4 * (|b| / 3) + (if |b| % 3 == 0 then 0 else |b| % 3 + 1)
    ensures AllAlphabet(s)
  {
    if |b| == 0 then ""
    else if |b| <= 3 then EncodeQuantum(b)
    else EncodeQuantum(b[..3]) + EncodeChunks(b[3..])
  }

  /** The `=` characters that complete the final quantum of an `n`-octet input. */
  function Padding(n: nat): (p: string)
    ensures |p| == (3 - n % 3) % 3 && forall i | 0 <= i < |p| :: p[i] == '='
  {
    if n % 3 == 1 then "==" else if n % 3 == 2 then "=" else ""
  }

  /** RFC 4648 section 4 encoding, padded with `=` to a multiple of four characters. */
  function Encode(b: seq<Byte>): (s: string)
    ensures |s| == 4 * ((|b| + 2) / 3)
    ensures forall i | 0 <= i < |s| ::
      if i < |s| - |Padding(|b|)| then IsAlphabetChar(s[i]) else s[i] == '='
  {
    EncodeChunks(b) + Padding(|b|)
  }

  /** Two to four alphabet characters back to one to three octets. */
  function DecodeQuantum(s: string): (q: seq<Byte>)
    requires 2 <= |s| <= 4 && AllAlphabet(s)
    ensures |q| == |s| - 1
  {
    Octets(ValuesOf(s))
  }

  /**
   * Decodes a run of alphabet characters whose length is not 1 modulo 4,
   * four characters (three octets) at a time.
   */
  function DecodeChunks(s: string): (b: seq<Byte>)
    requires AllAlphabet(s) && |s| % 4 != 1
    ensures |b| == 3 * (|s| / 4) + (if |s| % 4 == 0 then 0 else |s| % 4 - 1)
  {
    if |s| == 0 then []
    else if |s| <= 4 then DecodeQuantum(s)
    else DecodeQuantum(s[..4]) + DecodeChunks(s[4..])
  }

  /** Decoding a quantum undoes its encoding. */
  lemma DecodeEncodeQuantum(q: seq<Byte>)
    requires 1 <= |q| <= 3
    ensures DecodeQuantum(EncodeQuantum(q)) == q
  {
    ValuesOfCharsOf(Sextets(q));
    OctetsSextets(q);
  }

  /** Decoding undoes encoding for the unpadded character stream. */
  lemma {:induction false} DecodeEncodeChunks(b: seq<Byte>)
    ensures DecodeChunks(EncodeChunks(b)) == b
  {
    if 1 <= |b| <= 3 {
      DecodeEncodeQuantum(b);
    } else if |b| > 3 {
      var s := EncodeChunks(b);
      assert s[..4] == EncodeQuantum(b[..3]);
      assert s[4..] == EncodeChunks(b[3..]);
      DecodeEncodeQuantum(b[..3]);
      DecodeEncodeChunks(b[3..]);
      assert b == b[..3] + b[3..];
    }
  }

  /** ASCII whitespace as the Infra standard defines it: TAB, LF, FF, CR and SPACE. */
  predicate IsAsciiWhitespace(c: char) {
    c == '\t' || c == '\n' || c as int == 0x0C || c == '\r' || c == ' '
  }

  /** The first step of forgiving-base64 decode: every ASCII whitespace character is removed. */
  function StripAsciiWhitespace(s: string): (r: string)
    ensures forall i | 0 <= i < |r| :: !IsAsciiWhitespace(r[i])
    ensures (forall i | 0 <= i < |s| :: !IsAsciiWhitespace(s[i])) ==> r == s
  {
    if s == [] then []
    else (if IsAsciiWhitespace(s[0]) then [] else [s[0]]) + StripAsciiWhitespace(s[1..])
  }

  /** Whitespace removal works character by character: it distributes over concatenation. */
  lemma {:induction false} StripConcat(a: string, b: string)
    ensures StripAsciiWhitespace(a + b) == StripAsciiWhitespace(a) + StripAsciiWhitespace(b)
  {
    if a == [] {
      assert a + b == b;
    } else {
      assert (a + b)[1..] == a[1..] + b;
      StripConcat(a[1..], b);
    }
  }

  /** A single character is dropped when it is ASCII whitespace and kept otherwise. */
  lemma StripChar(c: char)
    ensures StripAsciiWhitespace([c]) == if IsAsciiWhitespace(c) then [] else [c]
  {
  }

  /** Text made only of ASCII whitespace disappears entirely. */
  lemma {:induction false} StripAllWhitespace(w: string)
    requires forall i | 0 <= i < |w| :: IsAsciiWhitespace(w[i])
    ensures StripAsciiWhitespace(w) == []
  {
    if w != [] {
      StripAllWhitespace(w[1..]);
    }
  }

  /** Whitespace removal keeps every other character. */
  lemma {:induction false} StripKeeps(s: string, i: int)
    requires 0 <= i < |s| && !IsAsciiWhitespace(s[i])
    ensures s[i] in StripAsciiWhitespace(s)
  {
    if i > 0 {
      StripKeeps(s[1..], i - 1);
    }
  }

  /**
   * The second step: when the length is a multiple of four, one or two
   * trailing `=` characters are removed.
   */
  function TrimPadding(d: string): (r: string)
    ensures |r| <= |d| && r == d[..|r|]
    ensures |d| - |r| <= 2 && (|d| % 4 != 0 ==> r == d)
    ensures forall i | |r| <= i < |d| :: d[i] == '='
  {
    if |d| % 4 == 0 && |d| >= 2 && d[|d| - 2] == '=' && d[|d| - 1] == '=' then d[..|d| - 2]
    else if |d| % 4 == 0 && |d| >= 1 && d[|d| - 1] == '=' then d[..|d| - 1]
    else d
  }

  /**
   * Forgiving-base64 decode: after whitespace removal and padding trimming,
   * a length of 1 modulo 4 or any character outside the alphabet is a failure.
   */
  function ForgivingDecode(s: string): Option<seq<Byte>> {
    var d := TrimPadding(StripAsciiWhitespace(s));
    if |d| % 4 == 1 || !AllAlphabet(d) then None else Some(DecodeChunks(d))
  }

  /** `atob` ignores ASCII whitespace anywhere in its argument, inside the text as well as around it. */
  lemma ForgivingDecodeIgnoresWhitespace(a: string, w: string, b: string)
    requires forall i | 0 <= i < |w| :: IsAsciiWhitespace(w[i])
    ensures ForgivingDecode(a + w + b) == ForgivingDecode(a + b)
  {
    StripConcat(a + w, b);
    StripConcat(a, w);
    StripConcat(a, b);
    StripAllWhitespace(w);
    assert StripAsciiWhitespace(a) + [] == StripAsciiWhitespace(a);
  }

  /** An encoding holds no whitespace, so the first decoding step leaves it alone. */
  lemma StripEncode(b: seq<Byte>)
    ensures StripAsciiWhitespace(Encode(b)) == Encode(b)
  {
    var e := Encode(b);
    forall i | 0 <= i < |e| ensures !IsAsciiWhitespace(e[i]) {
      if i < |e| - |Padding(|b|)| {
        assert IsAlphabetChar(e[i]);
      }
    }
  }

  /** Trimming removes exactly the `=` characters that follow a run of alphabet characters. */
  lemma TrimAlphabetThenPad(c: string, pad: string)
    requires AllAlphabet(c) && |pad| <= 2 && forall i | 0 <= i < |pad| :: pad[i] == '='
    requires |c + pad| % 4 == 0
    ensures TrimPadding(c + pad) == c
  {
    var e := c + pad;
    assert e[..|c|] == c;
    if |pad| == 0 {
      assert e == c;
      assert |c| == 0 || IsAlphabetChar(e[|e| - 1]);
    } else if |pad| == 1 {
      assert |c| == 0 || IsAlphabetChar(e[|e| - 2]);
    }
  }

  /** A padded encoding is its unpadded characters and its padding, four characters per quantum. */
  lemma EncodeSplits(b: seq<Byte>)
    ensures Encode(b) == EncodeChunks(b) + Padding(|b|)
    ensures |EncodeChunks(b) + Padding(|b|)| % 4 == 0
  {
    var quanta := (|b| + 2) / 3;
    assert (4 * quanta) % 4 == 0;
  }

  /** Whitespace removal and padding trimming take an encoding back to its unpadded characters. */
  lemma TrimEncode(b: seq<Byte>)
    ensures TrimPadding(StripAsciiWhitespace(Encode(b))) == EncodeChunks(b)
  {
    EncodeSplits(b);
    TrimAlphabetThenPad(EncodeChunks(b), Padding(|b|));
    StripEncode(b);
  }

  /** Round trip: the decoder recovers every octet sequence from its padded encoding. */
  lemma ForgivingDecodeEncode(b: seq<Byte>)
    ensures ForgivingDecode(Encode(b)) == Some(b)
  {
    TrimEncode(b);
    DecodeEncodeChunks(b);
  }

  /** The decoder also accepts the encoding with its padding left off. */
  lemma ForgivingDecodeUnpadded(b: seq<Byte>)
    ensures ForgivingDecode(EncodeChunks(b)) == Some(b)
  {
    var chunks := EncodeChunks(b);
    assert StripAsciiWhitespace(chunks) == chunks;
    assert |chunks| == 0 || chunks[|chunks| - 1] != '=';
    assert TrimPadding(chunks) == chunks;
    DecodeEncodeChunks(b);
  }

  /** A character that is neither in the alphabet, nor `=`, nor ASCII whitespace makes decoding fail. */
  lemma ForgivingDecodeRejectsForeign(s: string, i: int)
    requires 0 <= i < |s|
    requires !IsAlphabetChar(s[i]) && s[i] != '=' && !IsAsciiWhitespace(s[i])
    ensures ForgivingDecode(s) == None
  {
    var c := s[i];
    var w := StripAsciiWhitespace(s);
    StripKeeps(s, i);
    var j :| 0 <= j < |w| && w[j] == c;
    var d := TrimPadding(w);
    assert j < |d| && d[j] == c;
  }

  /**
   * An `=` is accepted only among the last two characters of a
   * whitespace-free text whose length is a multiple of four.
   */
  lemma ForgivingDecodeRejectsMisplacedPadding(s: string, j: int)
    requires var w := StripAsciiWhitespace(s);
      0 <= j < |w| && w[j] == '=' && (|w| % 4 != 0 || j < |w| - 2)
    ensures ForgivingDecode(s) == None
  {
    var w := StripAsciiWhitespace(s);
    var d := TrimPadding(w);
    assert j < |d| && d[j] == '=';
  }

  /** Text whose whitespace-free length is 1 modulo 4 never decodes. */
  lemma ForgivingDecodeRejectsStrayQuantum(s: string)
    requires |StripAsciiWhitespace(s)| % 4 == 1
    ensures ForgivingDecode(s) == None
  {
  }
}
