/**
 * The wire form both minting handlers return: an encoded payload and an
 * encoded signature joined by one `.`, where the signature is an HMAC-SHA256
 * over the encoded payload text. HMAC-SHA256 itself is not modelled: a handler
 * receives it as a function, so nothing here depends on what it computes.
 */
module SignedCode {
  import opened Wrappers
  import Js
  import Utf8

  type byte = Utf8.byte

  /** An HMAC-SHA256 output: 32 bytes. */
  type Digest = d: seq<byte> | |d| == 32 witness seq(32, i => 0)

  /** HMAC-SHA256 as a function of the key bytes and the message bytes. */
  type Hmac = (seq<byte>, seq<byte>) -> Digest

  /** `process.env.LINK_SECRET` is set to a non-empty string: both minting handlers refuse to sign otherwise. */
  predicate HasLinkSecret(env: Js.Env)
  {
    Js.EnvVar(env, "LINK_SECRET").Some? && Js.EnvVar(env, "LINK_SECRET").value != ""
  }

  /** `${p}.${sig}` */
  function Assemble(p: string, sig: string): string
  {
    p + "." + sig
  }

  /** The number of `.` characters in `s`. */
  function DotCount(s: string): nat
  {
    if s == [] then 0 else (if s[0] == '.' then 1 else 0) + DotCount(s[1..])
  }

  /** `s` split at its first `.`, `None` when it has none. */
  function SplitAtDot(s: string): (r: Option<(string, string)>)
    ensures r.Some? ==> s == r.value.0 + "." + r.value.1 && DotCount(r.value.0) == 0
    ensures r.None? ==> DotCount(s) == 0
  {
    if s == [] then None
    else if s[0] == '.' then Some(([], s[1..]))
    else match SplitAtDot(s[1..])
      case None => None
      case Some((a, b)) => Some(([s[0]] + a, b))
  }

  /** Counting dots distributes over concatenation. */
  lemma {:induction false} DotCountAppend(a: string, b: string)
    ensures DotCount(a + b) == DotCount(a) + DotCount(b)
  {
    if a == [] {
      assert a + b == b;
    } else {
      assert (a + b)[1..] == a[1..] + b;
      DotCountAppend(a[1..], b);
    }
  }

  /** Splitting at the first dot finds a dot-free prefix again. */
  lemma {:induction false} SplitAtDotOfDotFree(p: string, rest: string)
    requires DotCount(p) == 0
    ensures SplitAtDot(p + "." + rest) == Some((p, rest))
  {
    if p != [] {
      assert (p + "." + rest)[1..] == p[1..] + "." + rest;
      SplitAtDotOfDotFree(p[1..], rest);
      assert [p[0]] + p[1..] == p;
    } else {
      assert p + "." + rest == "." + rest;
    }
  }

  /**
   * A code assembled from two dot-free parts holds exactly one `.`, and
   * splitting it there gives the two parts back.
   */
  lemma AssembleSplit(p: string, sig: string)
    requires DotCount(p) == 0 && DotCount(sig) == 0
    ensures DotCount(Assemble(p, sig)) == 1
    ensures SplitAtDot(Assemble(p, sig)) == Some((p, sig))
  {
    DotCountAppend(p, "." + sig);
    DotCountAppend(".", sig);
    assert ("." + sig)[1..] == sig;
    assert p + "." + sig == p + ("." + sig);
    SplitAtDotOfDotFree(p, sig);
  }

  /** A string none of whose characters is `.` has no dots. */
  lemma {:induction false} NoDotChars(s: string)
    requires forall i :: 0 <= i < |s| ==> s[i] != '.'
    ensures DotCount(s) == 0
  {
    if s != [] {
      NoDotChars(s[1..]);
    }
  }
}
