/** NUL-terminated byte strings: the specification shared by both copies of
    `cstr2ruststr` (src/lib.rs and src/util.rs) and by the readers of string
    tables. UTF-8 validity is not checked by the source and not modelled. */
module CStrings {
  import opened Common

  /** The index of the first zero byte of `s`. */
  function FirstZero(s: seq<bv8>): (k: nat)
    requires 0 in s
    ensures k < |s| && s[k] == 0
    ensures forall i :: 0 <= i < k ==> s[i] != 0
  {
    if s[0] == 0 then 0
    else
      assert s == [s[0]] + s[1..];
      1 + FirstZero(s[1..])
  }

  /** The bytes of `s` before its first zero byte. */
  function CStr(s: seq<bv8>): (r: Name)
    requires 0 in s
  {
    s[..FirstZero(s)]
  }

  /** The string is a prefix of the input that holds no zero byte and is
      followed by one; it is empty exactly when the first byte is zero. */
  lemma CStrProperties(s: seq<bv8>)
    requires 0 in s
    ensures |CStr(s)| < |s| && CStr(s) == s[..|CStr(s)|]
    ensures 0 !in CStr(s) && s[|CStr(s)|] == 0
    ensures CStr(s) == [] <==> s[0] == 0
  {
  }

  /** Any split into a zero-free prefix and a zero gives the same string. */
  lemma CStrUnique(s: seq<bv8>, n: nat)
    requires n < |s| && s[n] == 0 && forall i :: 0 <= i < n ==> s[i] != 0
    ensures 0 in s && CStr(s) == s[..n]
  {
    assert s[n] == 0;
  }

  /** Bytes after the terminator do not matter. */
  lemma CStrIgnoresTail(s: seq<bv8>, t: seq<bv8>)
    requires 0 in s
    ensures 0 in s + t && CStr(s + t) == CStr(s)
  {
    var n := FirstZero(s);
    assert (s + t)[n] == 0;
    assert (s + t)[..n] == s[..n];
    assert forall i :: 0 <= i < n ==> (s + t)[i] == s[i];
    CStrUnique(s + t, n);
  }
}
