/**
 * C characters and NUL-terminated strings.
 *
 * A Dafny `char` stands for the C `char` with the same code; codes 128..255 are
 * negative as a (signed) C `char`. A C string argument is a `string`; reading
 * past its end yields the terminating NUL.
 */
module CStrings {

  /** The value of a character as a signed C `char`. */
  function SignedChar(c: char): (r: int)
    ensures c as int < 128 ==> r == c as int
    ensures 128 <= c as int < 256 ==> r < 0
  {
    if c as int < 128 then c as int
    else if c as int < 256 then c as int - 256
    else c as int
  }

  /** The character at position `i` of a C string, NUL at or past its end. */
  function At(s: string, i: nat): (c: char)
    ensures i >= |s| ==> c == '\0'
  {
    if i < |s| then s[i] else '\0'
  }

  /** The C string held in a character buffer: everything before the first NUL. */
  function CStr(buf: string): (r: string)
    ensures |r| <= |buf| && r == buf[..|r|]
    ensures '\0' !in r
    ensures |r| < |buf| ==> buf[|r|] == '\0'
  {
    if |buf| == 0 || buf[0] == '\0' then "" else [buf[0]] + CStr(buf[1..])
  }

  lemma {:induction false} CStrOfNulFree(s: string)
    requires '\0' !in s
    ensures CStr(s) == s
  {
    if |s| > 0 {
      CStrOfNulFree(s[1..]);
    }
  }

  predicate IsUpperAscii(c: char) { 'A' <= c <= 'Z' }

  predicate IsLowerAscii(c: char) { 'a' <= c <= 'z' }

  /** `toupper` in the C locale. */
  function ToUpper(c: char): (r: char)
    ensures !IsLowerAscii(r)
    ensures IsLowerAscii(c) ==> r as int == c as int - 32
    ensures !IsLowerAscii(c) ==> r == c
  {
    if IsLowerAscii(c) then (c as int - 32) as char else c
  }

  /** `tolower` in the C locale. */
  function ToLower(c: char): (r: char)
    ensures !IsUpperAscii(r)
    ensures IsUpperAscii(c) ==> r as int == c as int + 32
    ensures !IsUpperAscii(c) ==> r == c
  {
    if IsUpperAscii(c) then (c as int + 32) as char else c
  }

  function Lower(s: string): (r: string)
    ensures |r| == |s|
    ensures forall i :: 0 <= i < |s| ==> r[i] == ToLower(s[i])
  {
    seq(|s|, i requires 0 <= i < |s| => ToLower(s[i]))
  }

  function Upper(s: string): (r: string)
    ensures |r| == |s|
    ensures forall i :: 0 <= i < |s| ==> r[i] == ToUpper(s[i])
  {
    seq(|s|, i requires 0 <= i < |s| => ToUpper(s[i]))
  }

  /** `stricmp(a, b) == 0` for two C strings. */
  predicate EqualIgnoreCase(a: string, b: string)
  {
    |a| == |b| && forall i :: 0 <= i < |a| ==> ToLower(a[i]) == ToLower(b[i])
  }

  /** Case-insensitive equality is exactly equality of the lower-cased strings. */
  lemma EqualIgnoreCaseIffLowerEqual(a: string, b: string)
    ensures EqualIgnoreCase(a, b) <==> Lower(a) == Lower(b)
  {
    if Lower(a) == Lower(b) {
      assert forall i :: 0 <= i < |a| ==> Lower(a)[i] == Lower(b)[i];
    }
  }

  /** `strncmp(s, p, |p|) == 0` for a C string `s` and a NUL-free `p`. */
  predicate HasPrefix(s: string, p: string)
  {
    |p| <= |s| && s[..|p|] == p
  }

  /** `isspace` in the C locale. */
  predicate IsSpace(c: char)
  {
    c == ' ' || '\t' <= c <= '\r'
  }

  /** `isalnum` in the C locale. */
  predicate IsAlnum(c: char)
  {
    '0' <= c <= '9' || IsUpperAscii(c) || IsLowerAscii(c)
  }

  /**
   * A character buffer of `size` characters filled by `strncpy(buffer, src, size)`
   * followed by `buffer[size - 1] = '\0'`.
   */
  function BoundedCopy(src: string, size: nat): (buf: string)
    requires size >= 1
    ensures |buf| == size
    ensures CStr(buf) == CStr(src)[..if |CStr(src)| < size then |CStr(src)| else size - 1]
  {
    var s := CStr(src);
    var buf := seq(size, i requires 0 <= i < size => if i < size - 1 && i < |s| then s[i] else '\0');
    CStrOfPrefixBuffer(buf, s, if |s| < size then |s| else size - 1);
    buf
  }

  /** A buffer that starts with a NUL-free prefix followed by NUL holds that prefix as C string. */
  lemma {:induction false} CStrOfPrefixBuffer(buf: string, s: string, n: nat)
    requires n <= |s| && n < |buf| && '\0' !in s
    requires forall i :: 0 <= i < n ==> buf[i] == s[i]
    requires buf[n] == '\0'
    ensures CStr(buf) == s[..n]
  {
    if n == 0 {
    } else {
      CStrOfPrefixBuffer(buf[1..], s[1..], n - 1);
      assert s[..n] == [s[0]] + s[1..][..n - 1];
    }
  }
}
