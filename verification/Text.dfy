/** String scanning: runs of a character class, first occurrence of a pattern,
    trimming. Positions count characters, where the program counts bytes. */
module Text {
  import opened Json

  lemma Assoc<T>(a: seq<T>, b: seq<T>, c: seq<T>)
    ensures a + b + c == a + (b + c)
  {}

  lemma TakeAppend<T>(a: seq<T>, b: seq<T>, n: nat)
    requires n <= |a|
    ensures (a + b)[..n] == a[..n] && (a + b)[n..] == a[n..] + b
  {}

  lemma AppendTake<T>(a: seq<T>, b: seq<T>)
    ensures (a + b)[..|a|] == a && (a + b)[|a|..] == b
  {}

  lemma DropTwo<T>(a: seq<T>, b: seq<T>, c: seq<T>)
    ensures (a + (b + c))[|a| + |b|..] == c
  {}

  /** Length of the longest prefix of `s` whose characters all satisfy `p`. */
  function Run(s: string, p: char -> bool): (n: nat)
    ensures n <= |s|
    ensures forall i | 0 <= i < n :: p(s[i])
    ensures n < |s| ==> !p(s[n])
  {
    if s == "" || !p(s[0]) then 0 else 1 + Run(s[1..], p)
  }

  lemma RunIs(s: string, p: char -> bool, n: nat)
    requires n <= |s|
    requires forall i | 0 <= i < n :: p(s[i])
    requires n < |s| ==> !p(s[n])
    ensures Run(s, p) == n
  {}

  /** A run that has ended stays the run whatever follows. */
  lemma RunAppend(s: string, p: char -> bool, t: string)
    requires Run(s, p) < |s| || t == "" || !p(t[0])
    ensures Run(s + t, p) == Run(s, p)
    ensures (s + t)[..Run(s, p)] == s[..Run(s, p)]
    ensures (s + t)[Run(s, p)..] == s[Run(s, p)..] + t
  {
    var n := Run(s, p);
    var u := s + t;
    TakeAppend(s, t, n);
    forall i | 0 <= i < n ensures p(u[i]) { assert p(s[i]) && u[i] == s[i]; }
    assert n < |u| ==> u[n] == if n < |s| then s[n] else t[0];
    RunIs(u, p, n);
  }

  predicate IsDigit(c: char) { '0' <= c <= '9' }
  predicate IsAlpha(c: char) { 'a' <= c <= 'z' || 'A' <= c <= 'Z' }
  predicate IsAlnum(c: char) { IsDigit(c) || IsAlpha(c) }

  /** The Unicode White_Space property. */
  predicate IsWhitespace(c: char) {
    var u := c as int;
    0x9 <= u <= 0xD || u == 0x20 || u == 0x85 || u == 0xA0 || u == 0x1680
    || 0x2000 <= u <= 0x200A || u == 0x2028 || u == 0x2029 || u == 0x202F
    || u == 0x205F || u == 0x3000
  }

  function SkipWs(s: string): (r: string)
    ensures |r| <= |s|
    ensures r != "" ==> !IsWhitespace(r[0])
  {
    s[Run(s, IsWhitespace)..]
  }

  function TrimEnd(s: string): (r: string)
    ensures r <= s
    ensures r != "" ==> !IsWhitespace(r[|r| - 1])
    decreases |s|
  {
    if s != "" && IsWhitespace(s[|s| - 1]) then TrimEnd(s[..|s| - 1]) else s
  }

  function Trim(s: string): (r: string)
    ensures |r| <= |s|
  {
    TrimEnd(SkipWs(s))
  }

  /** Appending text after a visible character does not change the skipping. */
  lemma SkipWsAppend(s: string, t: string)
    ensures SkipWs(s) != "" ==> SkipWs(s + t) == SkipWs(s) + t
    ensures SkipWs(s) == "" && (t == "" || !IsWhitespace(t[0])) ==> SkipWs(s + t) == t
  {
    var n := Run(s, IsWhitespace);
    if n < |s| || t == "" || !IsWhitespace(t[0]) {
      RunAppend(s, IsWhitespace, t);
    }
  }

  predicate Begins(s: string, c: char) { s != "" && s[0] == c }

  predicate EndsWith(s: string, p: string) { |p| <= |s| && s[|s| - |p|..] == p }

  /** The pattern `p` stands at index `i` of `s`. */
  predicate At(s: string, i: nat, p: string) {
    i + |p| <= |s| && forall j | 0 <= j < |p| :: s[i + j] == p[j]
  }

  lemma AtPrefix(u: string, s: string, i: nat, p: string)
    requires u <= s && i + |p| <= |u|
    ensures At(u, i, p) == At(s, i, p)
  {
    assert forall j | 0 <= j < |p| :: u[i + j] == p[j] <==> s[i + j] == p[j];
  }

  /** Index of the first occurrence of `p` in `s`. */
  function Find(s: string, p: string): (r: Option<nat>)
    ensures r.Some? ==> r.value + |p| <= |s|
  {
    if At(s, 0, p) then Some(0)
    else if s == "" then None
    else match Find(s[1..], p) case None => None case Some(k) => Some(k + 1)
  }

  lemma {:induction false} FindMeans(s: string, p: string)
    ensures match Find(s, p)
      case Some(k) => At(s, k, p) && forall i | 0 <= i < k :: !At(s, i, p)
      case None => forall i: nat :: !At(s, i, p)
  {
    if !At(s, 0, p) && s != "" {
      FindMeans(s[1..], p);
      forall i: nat | 0 < i ensures At(s, i, p) == At(s[1..], i - 1, p) {
        assert forall j | 0 <= j < |p| && i + |p| <= |s| :: s[i + j] == p[j] <==> s[1..][i - 1 + j] == p[j];
      }
    }
  }

  lemma FindIs(s: string, p: string, k: nat)
    requires At(s, k, p)
    requires forall i: nat | i < k :: !At(s, i, p)
    ensures Find(s, p) == Some(k)
  {
    FindMeans(s, p);
  }

  /** The first occurrence in a prefix is the first occurrence. */
  lemma FindPrefix(u: string, s: string, p: string)
    requires u <= s && Find(u, p).Some?
    ensures Find(s, p) == Find(u, p)
  {
    var k := Find(u, p).value;
    FindMeans(u, p);
    AtPrefix(u, s, k, p);
    forall i: nat | i < k ensures !At(s, i, p) { AtPrefix(u, s, i, p); }
    FindIs(s, p, k);
  }

  predicate Contains(s: string, p: string) { Find(s, p).Some? }

  function Join(parts: seq<string>, sep: string): string {
    if |parts| == 0 then ""
    else if |parts| == 1 then parts[0]
    else parts[0] + sep + Join(parts[1..], sep)
  }

  /** The segments of a dotted path: at least one, possibly empty ones. */
  function SplitDots(s: string): (r: seq<string>)
    ensures |r| >= 1
    decreases |s|
  {
    match Find(s, ".")
    case None => [s]
    case Some(k) => [s[..k]] + SplitDots(s[k + 1..])
  }
}
