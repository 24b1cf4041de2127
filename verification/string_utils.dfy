/**
 * The string hashes of common/StringUtils.h, taken from the MSVC `std::hash`:
 * an FNV-1-style fold over every `1 + len/10`-th character. `size_t` is taken
 * as 64 bits wide; none of the properties below depends on the width.
 */
module StringUtils {
  import opened Wrappers
  import opened CStrings
  import opened Bytes

  /** A `size_t` value. */
  type size_t = x: nat | x < SIZE_T_MODULUS

  const FNV_OFFSET_BASIS: size_t := 2166136261
  const FNV_PRIME: size_t := 16777619

  /** `(size_t)` of a (signed) C `char`: negative characters are sign-extended. */
  function CharToSize(c: char): (r: size_t)
    ensures SignedChar(c) >= 0 ==> r == SignedChar(c)
    ensures SignedChar(c) < 0 ==> r == SIZE_T_MODULUS + SignedChar(c)
  {
    if SignedChar(c) >= 0 then SignedChar(c) else SIZE_T_MODULUS + SignedChar(c)
  }

  /** Bitwise exclusive or of two `size_t` values. */
  function XorSize(a: size_t, b: size_t): (r: size_t)
  {
    Xor(a, b) % SIZE_T_MODULUS
  }

  /** Multiplication of two `size_t` values, wrapping modulo 2^64. */
  function MulSize(a: size_t, b: size_t): (r: size_t)
  {
    (a * b) % SIZE_T_MODULUS
  }

  /** One step of the fold: multiply by the prime, then xor the character. */
  function Step(h: size_t, c: char): size_t
  {
    XorSize(MulSize(FNV_PRIME, h), CharToSize(c))
  }

  /** The distance between the characters that take part in the hash of an `len`-character string. */
  function Stride(len: nat): (r: nat)
    ensures r >= 1
    ensures len < 10 ==> r == 1
  {
    1 + len / 10
  }

  /** The characters at positions `pos`, `pos + stride`, `pos + 2*stride`, ... */
  function SamplesFrom(s: string, stride: nat, pos: nat): (r: seq<char>)
    requires stride >= 1
    ensures pos >= |s| <==> r == []
    ensures pos < |s| ==> r[0] == s[pos]
    decreases |s| - pos
  {
    if pos >= |s| then [] else [s[pos]] + SamplesFrom(s, stride, pos + stride)
  }

  /** The characters of `s` the hash reads. */
  function Samples(s: string): seq<char>
  {
    SamplesFrom(s, Stride(|s|), 0)
  }

  function FoldFrom(h: size_t, cs: seq<char>): size_t
    decreases |cs|
  {
    if |cs| == 0 then h else FoldFrom(Step(h, cs[0]), cs[1..])
  }

  /** Reference definition: the fold of the sampled characters, starting at the offset basis. */
  function Hash(s: string): size_t
  {
    FoldFrom(FNV_OFFSET_BASIS, Samples(s))
  }

  /** The C string a possibly-null argument stands for; null reads as "". */
  function ArgString(p: Option<string>): (s: string)
    ensures p.None? ==> s == ""
    ensures '\0' !in s
  {
    if p.None? then "" else CStr(p.value)
  }

  /** `StringHash`: the loop over every `Stride`-th character. */
  method StringHash(p: Option<string>) returns (h: size_t)
    ensures h == Hash(ArgString(p))
    ensures p.None? ==> h == FNV_OFFSET_BASIS
  {
    var s := ArgString(p);
    h := FNV_OFFSET_BASIS;
    var first := 0;
    var last := |s|;
    var stride := Stride(last);
    while first < last
      invariant FoldFrom(h, SamplesFrom(s, stride, first)) == Hash(s)
      decreases last - first
    {
      h := XorSize(MulSize(FNV_PRIME, h), CharToSize(s[first]));
      first := first + stride;
    }
  }

  /** `StringHashI`: the same loop over the lower-cased characters. */
  method StringHashI(p: Option<string>) returns (h: size_t)
    ensures h == Hash(Lower(ArgString(p)))
    ensures p.None? ==> h == FNV_OFFSET_BASIS
  {
    var s := ArgString(p);
    h := FNV_OFFSET_BASIS;
    var first := 0;
    var last := |s|;
    var stride := Stride(last);
    while first < last
      invariant FoldFrom(h, SamplesFrom(Lower(s), stride, first)) == Hash(Lower(s))
      decreases last - first
    {
      h := XorSize(MulSize(FNV_PRIME, h), CharToSize(ToLower(s[first])));
      first := first + stride;
    }
  }

  lemma EmptyHash()
    ensures Hash("") == FNV_OFFSET_BASIS
    ensures Hash(ArgString(None)) == 2166136261
  {
  }

  /** Characters between the sampled positions do not affect the hash. */
  lemma OnlySampledPositionsMatter(a: string, b: string)
    requires |a| == |b|
    requires forall k: nat :: k * Stride(|a|) < |a| ==> a[k * Stride(|a|)] == b[k * Stride(|a|)]
    ensures Hash(a) == Hash(b)
  {
    SamplesFromAgree(a, b, Stride(|a|), 0);
  }

  lemma {:induction false} SamplesFromAgree(a: string, b: string, stride: nat, k: nat)
    requires |a| == |b| && stride >= 1
    requires forall j: nat :: j * stride < |a| ==> a[j * stride] == b[j * stride]
    ensures SamplesFrom(a, stride, k * stride) == SamplesFrom(b, stride, k * stride)
    decreases |a| - k * stride
  {
    if k * stride < |a| {
      assert k * stride + stride == (k + 1) * stride;
      SamplesFromAgree(a, b, stride, k + 1);
    }
  }

  /** Strings equal under `stricmp` have equal `StringHashI`, as the case-insensitive maps need. */
  lemma EqualIgnoreCaseSameHashI(a: string, b: string)
    requires EqualIgnoreCase(ArgString(Some(a)), ArgString(Some(b)))
    ensures Hash(Lower(ArgString(Some(a)))) == Hash(Lower(ArgString(Some(b))))
  {
    EqualIgnoreCaseIffLowerEqual(ArgString(Some(a)), ArgString(Some(b)));
  }
}
