/**
 * The browser's `window.btoa` and `window.atob` as the HTML standard defines
 * them. Both work on "binary strings": strings whose every code unit is below
 * 256 and stands for one octet.
 */
module Window {
  import opened Wrappers
  import Base64

  type Byte = Base64.Byte

  /** The one exception either function throws. */
  datatype DomException = InvalidCharacterError

  /** A string every one of whose code units fits in an octet. */
  predicate IsBinaryString(s: string) {
    forall i | 0 <= i < |s| :: s[i] as int < 256
  }

  /** Octets to a binary string: code unit i is octet i (`String.fromCharCode` per octet). */
  function IsomorphicDecode(bytes: seq<Byte>): (s: string)
    ensures |s| == |bytes| && IsBinaryString(s)
    ensures forall i | 0 <= i < |s| :: s[i] as int == bytes[i]
  {
    seq(|bytes|, i requires 0 <= i < |bytes| => bytes[i] as char)
  }

  /** A binary string back to its octets (`charCodeAt` per position). */
  function IsomorphicEncode(s: string): (bytes: seq<Byte>)
    requires IsBinaryString(s)
    ensures IsomorphicDecode(bytes) == s
  {
    seq(|s|, i requires 0 <= i < |s| => s[i] as int)
  }

  lemma IsomorphicEncodeDecode(bytes: seq<Byte>)
    ensures IsomorphicEncode(IsomorphicDecode(bytes)) == bytes
  {
  }

  /**
   * `btoa(data)`: a code unit above 0xFF throws InvalidCharacterError;
   * otherwise the octets of `data` are base64-encoded.
   */
  function Btoa(data: string): (r: Result<string, DomException>)
    ensures r.Success? <==> IsBinaryString(data)
  {
    if IsBinaryString(data) then Success(Base64.Encode(IsomorphicEncode(data)))
    else Failure(InvalidCharacterError)
  }

  /**
   * `atob(data)`: forgiving-base64 decode; a failure throws
   * InvalidCharacterError, a success gives the octets as a binary string.
   */
  function Atob(data: string): (r: Result<string, DomException>)
    ensures r.Success? <==> Base64.ForgivingDecode(data).Some?
    ensures r.Success? ==> IsBinaryString(r.value)
  {
    match Base64.ForgivingDecode(data)
    case None => Failure(InvalidCharacterError)
    case Some(bytes) => Success(IsomorphicDecode(bytes))
  }

  /** Reading the code units of a successful `atob` back as octets gives the forgiving-decoded octets. */
  lemma AtobOctets(data: string)
    requires Atob(data).Success?
    ensures Base64.ForgivingDecode(data).Some?
    ensures IsomorphicEncode(Atob(data).value) == Base64.ForgivingDecode(data).value
  {
    IsomorphicEncodeDecode(Base64.ForgivingDecode(data).value);
  }

  /** `btoa` of the binary string of some octets is their base64 encoding. */
  lemma BtoaIsomorphic(bytes: seq<Byte>)
    ensures Btoa(IsomorphicDecode(bytes)) == Success(Base64.Encode(bytes))
  {
    IsomorphicEncodeDecode(bytes);
  }

  /** `atob` undoes `btoa` on every binary string, the empty one included. */
  lemma AtobBtoa(data: string)
    requires IsBinaryString(data)
    ensures Btoa(data).Success? && Atob(Btoa(data).value) == Success(data)
  {
    var bytes := IsomorphicEncode(data);
    Base64.ForgivingDecodeEncode(bytes);
  }
}
