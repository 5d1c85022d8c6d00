/** The second copy of `cstr2ruststr` (src/util.rs), written with `loop`
    and `break`. The crate does not compile this file, but it states the
    same contract as the copy in src/lib.rs. */
module Util {
  import opened CStrings
  import opened Common

  /** The bytes from address `p` up to the first zero byte, which must
      exist. */
  method Cstr2RustStr(mem: array<bv8>, p: nat) returns (r: Name)
    requires p < mem.Length && 0 in mem[p..]
    ensures p + |r| < mem.Length && r == mem[p..p + |r|]
    ensures 0 !in r && mem[p + |r|] == 0
    ensures mem[p] == 0 ==> r == []
  {
    ghost var z := FirstZero(mem[p..]);
    assert mem[p..][z] == mem[p + z];
    var slen := 0;
    while true
      invariant slen <= z
      invariant forall i :: 0 <= i < slen ==> mem[p..][i] != 0
      decreases z - slen
    {
      if mem[p + slen] == 0 {
        break;
      }
      assert mem[p..][slen] == mem[p + slen];
      slen := slen + 1;
    }
    r := mem[p..p + slen];
  }

  /** What the method promises pins the result down: it is the string the
      copy in src/lib.rs returns. */
  lemma Cstr2RustStrIsCStr(s: seq<bv8>, r: Name)
    requires |r| < |s| && r == s[..|r|] && 0 !in r && s[|r|] == 0
    ensures 0 in s && r == CStr(s)
  {
    forall i | 0 <= i < |r| ensures s[i] != 0 {
      assert s[i] == r[i];
    }
    CStrUnique(s, |r|);
  }
}
