/**
 * The helpers of the web client's `utils` module: `classNames`, which joins
 * the truthy arguments with one space, and the two conversions between an
 * octet buffer and its base64 text.
 */
module Utils {
  import opened Wrappers
  import Base64
  import Window

  type Byte = Base64.Byte

  // ---------------------------------------------------------------- classNames

  /**
   * The safe integers of JavaScript (magnitude at most 2^53 - 1): every one is
   * an exact `number`, and `String` renders it in plain decimal.
   */
  type SafeInteger = i: int | -0x1F_FFFF_FFFF_FFFF <= i <= 0x1F_FFFF_FFFF_FFFF

  /**
   * The JavaScript values a caller passes to `classNames`. Numbers are limited
   * to safe integers.
   */
  datatype JsValue = Undefined | Null | Bool(b: bool) | Int(i: SafeInteger) | Str(s: string)

  /** JavaScript truthiness (`Boolean(v)`): `undefined`, `null`, `false`, `0` and `""` are falsy. */
  predicate Truthy(v: JsValue) {
    match v
    case Undefined => false
    case Null => false
    case Bool(b) => b
    case Int(i) => i != 0
    case Str(s) => s != ""
  }

  /** Decimal digits of a natural number, most significant first, without leading zeros. */
  function DecimalDigits(n: nat): (s: string)
    ensures |s| >= 1 && forall k | 0 <= k < |s| :: '0' <= s[k] <= '9'
  {
    if n < 10 then [('0' as int + n) as char]
    else DecimalDigits(n / 10) + [('0' as int + n % 10) as char]
  }

  /**
   * How `Array.prototype.join` renders one element: `undefined` and `null` as
   * the empty string, everything else as `String(v)`.
   */
  function JoinText(v: JsValue): string {
    match v
    case Undefined => ""
    case Null => ""
    case Bool(b) => if b then "true" else "false"
    case Int(i) => if i < 0 then "-" + DecimalDigits(-i) else DecimalDigits(i)
    case Str(s) => s
  }

  /** A truthy value never renders as the empty string. */
  lemma TruthyTextNonEmpty(v: JsValue)
    requires Truthy(v)
    ensures JoinText(v) != ""
  {
  }

  /** `filter(Boolean)`: the truthy values, in their original order. */
  function KeepTruthy(vs: seq<JsValue>): (r: seq<JsValue>)
    ensures |r| <= |vs|
    ensures forall v :: v in r <==> v in vs && Truthy(v)
  {
    if vs == [] then []
    else (if Truthy(vs[0]) then [vs[0]] else []) + KeepTruthy(vs[1..])
  }

  /** Filtering distributes over concatenation, so it keeps the relative order of what it keeps. */
  lemma {:induction false} KeepTruthyConcat(a: seq<JsValue>, b: seq<JsValue>)
    ensures KeepTruthy(a + b) == KeepTruthy(a) + KeepTruthy(b)
  {
    if a == [] {
      assert a + b == b;
    } else {
      assert (a + b)[1..] == a[1..] + b;
      KeepTruthyConcat(a[1..], b);
    }
  }

  /** Each value rendered as `join` renders it. */
  function Texts(vs: seq<JsValue>): (ts: seq<string>)
    ensures |ts| == |vs| && forall k | 0 <= k < |vs| :: ts[k] == JoinText(vs[k])
  {
    seq(|vs|, k requires 0 <= k < |vs| => JoinText(vs[k]))
  }

  /** `parts.join(sep)`: the parts with one separator between each neighbouring pair. */
  function Join(parts: seq<string>, sep: string): (r: string)
    ensures |parts| > 0 ==> |r| >= |parts[0]|
  {
    if |parts| == 0 then ""
    else if |parts| == 1 then parts[0]
    else parts[0] + sep + Join(parts[1..], sep)
  }

  /** Joining one more part appends the separator and that part, whatever the parts contain. */
  lemma {:induction false} JoinSnoc(parts: seq<string>, p: string, sep: string)
    requires |parts| >= 1
    ensures Join(parts + [p], sep) == Join(parts, sep) + sep + p
  {
    if |parts| == 1 {
      assert (parts + [p])[1..] == [p];
    } else {
      assert (parts + [p])[1..] == parts[1..] + [p];
      JoinSnoc(parts[1..], p, sep);
    }
  }

  /**
   * `classNames(...classes)`: the truthy arguments joined by one space. The
   * result is empty exactly when no argument is truthy (in particular when
   * there are no arguments).
   */
  function ClassNames(classes: seq<JsValue>): (r: string)
    ensures r == "" <==> forall k | 0 <= k < |classes| :: !Truthy(classes[k])
  {
    var kept := KeepTruthy(classes);
    if kept != [] then TruthyTextNonEmpty(kept[0]); Join(Texts(kept), " ")
    else Join(Texts(kept), " ")
  }

  /**
   * `classNames` argument by argument, for arguments of any content: a falsy
   * argument adds nothing, a truthy one adds its text, after one space unless
   * it is the first truthy argument. With `ClassNames([]) == ""` this fixes
   * the output of every call.
   */
  lemma ClassNamesSnoc(classes: seq<JsValue>, v: JsValue)
    ensures ClassNames(classes + [v])
      == if !Truthy(v) then ClassNames(classes)
         else if ClassNames(classes) == "" then JoinText(v)
         else ClassNames(classes) + " " + JoinText(v)
  {
    KeepTruthyConcat(classes, [v]);
    var kept := KeepTruthy(classes);
    KeptNoneExactlyWhenEmpty(classes);
    if Truthy(v) {
      assert KeepTruthy(classes + [v]) == kept + [v];
      TextsSnoc(kept, v);
      if kept != [] {
        JoinSnoc(Texts(kept), JoinText(v), " ");
      }
    } else {
      assert KeepTruthy(classes + [v]) == kept;
    }
  }

  /**
   * The program's own call: two non-empty class lists, each of which may hold
   * spaces, come out as the first, one space, and the second.
   */
  lemma ClassNamesOfTwo(a: string, b: string)
    requires a != "" && b != ""
    ensures ClassNames([Str(a), Str(b)]) == a + " " + b
  {
    ClassNamesSnoc([], Str(a));
    assert [] + [Str(a)] == [Str(a)];
    ClassNamesSnoc([Str(a)], Str(b));
    assert [Str(a)] + [Str(b)] == [Str(a), Str(b)];
  }

  /** `classNames` is empty exactly when `filter(Boolean)` kept nothing. */
  lemma KeptNoneExactlyWhenEmpty(classes: seq<JsValue>)
    ensures KeepTruthy(classes) == [] <==> ClassNames(classes) == ""
  {
    var kept := KeepTruthy(classes);
    if kept != [] {
      assert kept[0] in kept;
    } else {
      forall k | 0 <= k < |classes| ensures !Truthy(classes[k]) {
        assert classes[k] in classes;
      }
    }
  }

  lemma TextsSnoc(vs: seq<JsValue>, v: JsValue)
    ensures Texts(vs + [v]) == Texts(vs) + [JoinText(v)]
  {
  }

  /** `s.split(sep)` for a one-character separator: the pieces between separators. */
  function Split(s: string, sep: char): (r: seq<string>)
    ensures |r| >= 1
  {
    if s == [] then [""]
    else
      var rest := Split(s[1..], sep);
      if s[0] == sep then [""] + rest else [[s[0]] + rest[0]] + rest[1..]
  }

  lemma {:induction false} SplitWithoutSeparator(p: string, sep: char)
    requires sep !in p
    ensures Split(p, sep) == [p]
  {
    if p != [] {
      SplitWithoutSeparator(p[1..], sep);
      assert [p[0]] + p[1..] == p;
    }
  }

  lemma {:induction false} SplitAfterPiece(p: string, sep: char, t: string)
    requires sep !in p
    ensures Split(p + [sep] + t, sep) == [p] + Split(t, sep)
  {
    var s := p + [sep] + t;
    if p == [] {
      assert s == [sep] + t && s[1..] == t;
    } else {
      assert s[0] == p[0] && s[1..] == p[1..] + [sep] + t;
      SplitAfterPiece(p[1..], sep, t);
      assert [p[0]] + p[1..] == p;
    }
  }

  /** Splitting a join on its separator gives the parts back when no part holds the separator. */
  lemma {:induction false} SplitJoin(parts: seq<string>, sep: char)
    requires |parts| >= 1
    requires forall k | 0 <= k < |parts| :: sep !in parts[k]
    ensures Split(Join(parts, [sep]), sep) == parts
  {
    if |parts| == 1 {
      SplitWithoutSeparator(parts[0], sep);
    } else {
      SplitJoin(parts[1..], sep);
      SplitAfterPiece(parts[0], sep, Join(parts[1..], [sep]));
      assert parts == [parts[0]] + parts[1..];
    }
  }

  /**
   * The output of `classNames` is exactly the truthy arguments, in order,
   * separated by single spaces: splitting it on `' '` recovers their texts,
   * provided some argument is truthy and no truthy argument contains a space.
   */
  lemma ClassNamesSplit(classes: seq<JsValue>)
    requires exists k | 0 <= k < |classes| :: Truthy(classes[k])
    requires forall k | 0 <= k < |classes| :: Truthy(classes[k]) ==> ' ' !in JoinText(classes[k])
    ensures Split(ClassNames(classes), ' ') == Texts(KeepTruthy(classes))
  {
    var kept := KeepTruthy(classes);
    var k :| 0 <= k < |classes| && Truthy(classes[k]);
    assert classes[k] in kept;
    forall j | 0 <= j < |kept| ensures ' ' !in Texts(kept)[j] {
      assert kept[j] in kept;
    }
    SplitJoin(Texts(kept), ' ');
  }

  // ------------------------------------------------ octets <-> base64 text

  /**
   * `arrayBufferToBase64(buffer)`: builds the binary string one octet at a
   * time, then applies `btoa`; the result is the RFC 4648 base64 of the octets.
   */
  method ArrayBufferToBase64(buffer: array<Byte>) returns (text: string)
    ensures text == Base64.Encode(buffer[..])
  {
    var binary := "";
    for i := 0 to buffer.Length
      invariant binary == Window.IsomorphicDecode(buffer[..i])
    {
      binary := binary + [buffer[i] as char];
    }
    assert buffer[..buffer.Length] == buffer[..];
    Window.BtoaIsomorphic(buffer[..]);
    text := Window.Btoa(binary).value;
  }

  /**
   * The copy loop of `base64ToArrayBuffer`: a fresh `Uint8Array` as long as
   * the text, slot i set to code unit i, which the store reduces modulo 256.
   * On a binary string nothing is lost and the octets are its isomorphic
   * encoding.
   */
  method StoreCodeUnits(binary: string) returns (bytes: array<Byte>)
    ensures fresh(bytes)
    ensures bytes.Length == |binary|
    ensures forall k | 0 <= k < |binary| :: bytes[k] == binary[k] as int % 256
    ensures Window.IsBinaryString(binary) ==> bytes[..] == Window.IsomorphicEncode(binary)
  {
    bytes := new Byte[|binary|];
    for i := 0 to |binary|
      invariant forall k | 0 <= k < i :: bytes[k] == binary[k] as int % 256
    {
      bytes[i] := binary[i] as int % 256;
    }
    if Window.IsBinaryString(binary) {
      assert bytes[..] == Window.IsomorphicEncode(binary);
    }
  }

  /**
   * `base64ToArrayBuffer(base64)`: applies `atob`, which throws on malformed
   * text, then stores each code unit into a fresh `Uint8Array` of the same
   * length (a store into a `Uint8Array` keeps the value modulo 256). Octet i
   * of the result is code unit i of what `atob` returned, so the buffer holds
   * exactly the forgiving-decoded octets.
   */
  method Base64ToArrayBuffer(base64: string) returns (r: Result<array<Byte>, Window.DomException>)
    ensures r.Success? <==> Window.Atob(base64).Success?
    ensures r.Success? ==> fresh(r.value)
    ensures r.Success? ==> r.value[..] == Window.IsomorphicEncode(Window.Atob(base64).value)
    ensures r.Success? ==> r.value[..] == Base64.ForgivingDecode(base64).value
  {
    var decoded := Window.Atob(base64);
    if decoded.Failure? {
      return Failure(decoded.error);
    }
    var bytes := StoreCodeUnits(decoded.value);
    Window.AtobOctets(base64);
    return Success(bytes);
  }

  /**
   * Decoding what `ArrayBufferToBase64` produced gives back a new buffer with
   * the same octets, for every buffer, the empty one and ones ending in zero
   * octets included.
   */
  method RoundTrip(buffer: array<Byte>) returns (copy: Result<array<Byte>, Window.DomException>)
    ensures copy.Success? && fresh(copy.value) && copy.value[..] == buffer[..]
  {
    var text := ArrayBufferToBase64(buffer);
    Window.BtoaIsomorphic(buffer[..]);
    Window.AtobBtoa(Window.IsomorphicDecode(buffer[..]));
    Window.IsomorphicEncodeDecode(buffer[..]);
    copy := Base64ToArrayBuffer(text);
  }
}
