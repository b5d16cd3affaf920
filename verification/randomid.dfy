/** `GenerateRandomID`: random bytes rendered in lower-case hexadecimal, with an
    optional `prefix-` in front. The random source is a parameter: the bytes it
    can deliver before it fails. */
module RandomId {

  import opened Results

  newtype byte = x: int | 0 <= x < 256

  /** Number of random bytes used when the caller asks for zero or fewer. */
  const DefaultAmount: nat := 16

  const HexDigits: string := "0123456789abcdef"

  predicate IsLowerHex(c: char)
  {
    ('0' <= c <= '9') || ('a' <= c <= 'f')
  }

  /** `hex.EncodeToString`: two lower-case digits per byte, high nibble first. */
  function HexEncode(bytes: seq<byte>): (s: string)
    ensures |s| == 2 * |bytes|
    ensures forall k :: 0 <= k < |s| ==> IsLowerHex(s[k])
  {
    if bytes == [] then []
    else [HexDigits[bytes[0] / 16], HexDigits[bytes[0] % 16]] + HexEncode(bytes[1..])
  }

  function NibbleValue(c: char): (v: byte)
    requires IsLowerHex(c)
    ensures v < 16 && HexDigits[v] == c
  {
    if c <= '9' then ((c as int) - ('0' as int)) as byte
    else ((c as int) - ('a' as int) + 10) as byte
  }

  /** The inverse of `HexEncode` on well-formed text; `None` on odd length or a non-hex digit. */
  function HexDecode(s: string): Option<seq<byte>>
    decreases |s|
  {
    if s == [] then Some([])
    else if |s| < 2 || !IsLowerHex(s[0]) || !IsLowerHex(s[1]) then None
    else match HexDecode(s[2..])
      case None => None
      case Some(rest) => Some([((NibbleValue(s[0]) as int) * 16 + NibbleValue(s[1]) as int) as byte] + rest)
  }

  /** The two digits written for one byte read back as that byte. */
  lemma ByteRoundTrip(b: byte)
    ensures ((NibbleValue(HexDigits[b / 16]) as int) * 16 + NibbleValue(HexDigits[b % 16]) as int) as byte == b
  {
    assert NibbleValue(HexDigits[b / 16]) == b / 16;
    assert NibbleValue(HexDigits[b % 16]) == b % 16;
    var i := b as int;
    assert (i / 16) * 16 + i % 16 == i;
  }

  lemma {:induction false} HexRoundTrip(bytes: seq<byte>)
    ensures HexDecode(HexEncode(bytes)) == Some(bytes)
  {
    if bytes != [] {
      var s := HexEncode(bytes);
      assert s[2..] == HexEncode(bytes[1..]);
      HexRoundTrip(bytes[1..]);
      ByteRoundTrip(bytes[0]);
      assert [bytes[0]] + bytes[1..] == bytes;
    }
  }

  /** Different byte strings never share an encoding. */
  lemma HexInjective(a: seq<byte>, b: seq<byte>)
    requires HexEncode(a) == HexEncode(b)
    ensures a == b
  {
    HexRoundTrip(a);
    HexRoundTrip(b);
  }

  /** `IDOpts`: `prefix` is a nil-able `*string`. */
  datatype IdOpts = IdOpts(prefix: Option<string>, amount: int)

  function EffectiveAmount(amount: int): (n: nat)
    ensures amount <= 0 ==> n == DefaultAmount
    ensures amount > 0 ==> n == amount
  {
    if amount <= 0 then DefaultAmount else amount
  }

  predicate HasPrefix(opts: IdOpts)
  {
    opts.prefix.Some? && opts.prefix.value != ""
  }

  /** `GenerateRandomID(opts)`, given the bytes the random source delivers before it
      fails. A source that cannot fill the buffer makes the Go code panic: `None`. */
  function GenerateRandomId(opts: IdOpts, entropy: seq<byte>): (id: Option<string>)
    ensures id.None? <==> |entropy| < EffectiveAmount(opts.amount)
    ensures id.Some? && !HasPrefix(opts) ==>
              |id.value| == 2 * EffectiveAmount(opts.amount)
              && (forall k :: 0 <= k < |id.value| ==> IsLowerHex(id.value[k]))
              && HexDecode(id.value) == Some(entropy[..EffectiveAmount(opts.amount)])
    ensures id.Some? && HasPrefix(opts) ==>
              var p := opts.prefix.value;
              |id.value| == |p| + 1 + 2 * EffectiveAmount(opts.amount)
              && id.value[..|p| + 1] == p + "-"
              && (forall k :: |p| + 1 <= k < |id.value| ==> IsLowerHex(id.value[k]))
              && HexDecode(id.value[|p| + 1..]) == Some(entropy[..EffectiveAmount(opts.amount)])
  {
    var n := EffectiveAmount(opts.amount);
    if |entropy| < n then None
    else
      var hex := HexEncode(entropy[..n]);
      HexRoundTrip(entropy[..n]);
      if HasPrefix(opts) then
        var id := opts.prefix.value + "-" + hex;
        assert id[|opts.prefix.value| + 1..] == hex;
        Some(id)
      else Some(hex)
  }
}
