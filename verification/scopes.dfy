/**
 * Values shared by the command-line client and the daemon's CLI service:
 * scope entries, Java's `int` range and the few string helpers both sides use.
 */
module Scopes {

  datatype Option<T> = None | Some(value: T)

  /** `org.lsposed.lspd.models.Application` as the CLI uses it: a (package, user) pair. */
  datatype Scope = Scope(packageName: string, userId: int)

  /** The system-server entry whose presence in a scope calls for a reboot. */
  const Android: string := "android"

  const IntMin: int := -0x8000_0000
  const IntMax: int := 0x7fff_ffff

  predicate IsInt(n: int) { IntMin <= n <= IntMax }

  /** `Utils.checkPackageInScope(pkg, scope)`: some entry names the package. */
  predicate InScope(pkg: string, scope: seq<Scope>)
  {
    exists i :: 0 <= i < |scope| && scope[i].packageName == pkg
  }

  /** `s.indexOf(c)`: the first position of `c` in `s`, if any. */
  function IndexOf(s: string, c: char): (r: Option<nat>)
    ensures r.None? <==> c !in s
    ensures r.Some? ==> r.value < |s| && s[r.value] == c && c !in s[..r.value]
  {
    if s == [] then None
    else if s[0] == c then Some(0)
    else
      match IndexOf(s[1..], c)
      case None => None
      case Some(k) =>
        assert s[..k + 1] == [s[0]] + s[1..][..k];
        Some(k + 1)
  }

  /** The separator is found right after a prefix that does not contain it. */
  lemma {:induction false} IndexOfAfter(a: string, c: char, b: string)
    requires c !in a
    ensures IndexOf(a + [c] + b, c) == Some(|a|)
  {
    var s := a + [c] + b;
    assert s[|a|] == c;
    assert s[..|a|] == a;
  }

  /** `n` copies of character `c`. */
  function Repeat(c: char, n: nat): (r: string)
    ensures |r| == n && forall i :: 0 <= i < n ==> r[i] == c
  {
    if n == 0 then [] else Repeat(c, n - 1) + [c]
  }
}
