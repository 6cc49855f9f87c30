/**
 * The regular expression `new RegExp(p + "$")` that the catalog scan builds
 * from a class-name suffix `p`, and the two things the scan does with it:
 * `test(key)` and `key.replace(pattern, '')`.
 *
 * Only literal patterns are modelled: a `p` with none of the characters that
 * the ECMAScript RegExp grammar calls SyntaxCharacter. Such a pattern followed
 * by `$` matches at position `j` of a string exactly when `p` occurs at `j`
 * and ends where the string ends; a regular expression without the `g` flag
 * reports (and `replace` removes) the leftmost match.
 */
module AnchoredPattern {

  datatype Option<T> = None | Some(value: T)

  /** The characters with a special meaning in an ECMAScript regular expression. */
  const SyntaxCharacters: set<char> :=
    {'^', '$', '\\', '.', '*', '+', '?', '(', ')', '[', ']', '{', '}', '|'}

  /** `p` contains no SyntaxCharacter, so `new RegExp(p)` matches `p` literally. */
  predicate IsLiteral(p: string)
  {
    forall i :: 0 <= i < |p| ==> p[i] !in SyntaxCharacters
  }

  /** The pattern `p$` matches `s` at position `j`. */
  predicate MatchesAt(s: string, p: string, j: nat)
  {
    j + |p| == |s| && s[j..] == p
  }

  /** The leftmost position at or after `j` where `p$` matches `s`, as the
      regular-expression engine finds it by trying each start position in turn. */
  function FirstMatchFrom(s: string, p: string, j: nat): (r: Option<nat>)
    requires j <= |s|
    ensures r.Some? ==> j <= r.value <= |s| && MatchesAt(s, p, r.value)
    ensures r.Some? ==> forall m :: j <= m < r.value ==> !MatchesAt(s, p, m)
    ensures r.None? ==> forall m :: j <= m <= |s| ==> !MatchesAt(s, p, m)
    decreases |s| - j
  {
    if MatchesAt(s, p, j) then Some(j)
    else if j == |s| then None
    else FirstMatchFrom(s, p, j + 1)
  }

  /** `new RegExp(p + "$").test(s)` */
  function Test(s: string, p: string): bool
    requires IsLiteral(p)
  {
    FirstMatchFrom(s, p, 0).Some?
  }

  /** `s.replace(new RegExp(p + "$"), '')`: the leftmost match is removed; with
      no match the string is returned unchanged. */
  function Replace(s: string, p: string): string
    requires IsLiteral(p)
  {
    match FirstMatchFrom(s, p, 0)
    case None => s
    case Some(j) => s[..j] + s[j + |p|..]
  }

  /** `s` ends with `suffix`. */
  predicate EndsWith(s: string, suffix: string)
  {
    |suffix| <= |s| && s[|s| - |suffix|..] == suffix
  }

  /** `s` without its trailing `suffix`. */
  function StripSuffix(s: string, suffix: string): (r: string)
    requires EndsWith(s, suffix)
    ensures r + suffix == s
  {
    s[..|s| - |suffix|]
  }

  /** An anchored match can only sit at the one place where a suffix would. */
  lemma MatchesAtIsSuffix(s: string, p: string, j: nat)
    ensures MatchesAt(s, p, j) <==> EndsWith(s, p) && j == |s| - |p|
  {
  }

  /** The regular-expression test is exactly the literal suffix test. */
  lemma TestIsEndsWith(s: string, p: string)
    requires IsLiteral(p)
    ensures Test(s, p) <==> EndsWith(s, p)
  {
    if EndsWith(s, p) {
      MatchesAtIsSuffix(s, p, |s| - |p|);
    } else if Test(s, p) {
      MatchesAtIsSuffix(s, p, FirstMatchFrom(s, p, 0).value);
    }
  }

  /** When the test succeeds, the replacement strips exactly the trailing suffix. */
  lemma ReplaceIsStripSuffix(s: string, p: string)
    requires IsLiteral(p) && EndsWith(s, p)
    ensures Replace(s, p) == StripSuffix(s, p)
  {
    MatchesAtIsSuffix(s, p, |s| - |p|);
    var j := FirstMatchFrom(s, p, 0).value;
    MatchesAtIsSuffix(s, p, j);
    assert s[j + |p|..] == [];
  }

  /** Only the trailing occurrence is removed, even when `p` also occurs
      earlier in the key (`"RouteRoute"` becomes `"Route"`). */
  lemma {:induction false} ReplaceRemovesOnlyTrailing(q: string, p: string)
    requires IsLiteral(p)
    ensures Test(q + p, p) && Replace(q + p, p) == q
  {
    assert (q + p)[|q + p| - |p|..] == p;
    TestIsEndsWith(q + p, p);
    ReplaceIsStripSuffix(q + p, p);
    assert (q + p)[..|q|] == q;
  }

  /** With an empty pattern, `$` alone matches every key and removes nothing. */
  lemma EmptyPatternMatchesEverything(s: string)
    ensures Test(s, "") && Replace(s, "") == s
  {
    assert EndsWith(s, "");
    TestIsEndsWith(s, "");
    ReplaceIsStripSuffix(s, "");
  }

  lemma RouteRouteExample()
    ensures Replace("RouteRoute", "Route") == "Route"
  {
    ReplaceRemovesOnlyTrailing("Route", "Route");
    assert "Route" + "Route" == "RouteRoute";
  }
}
