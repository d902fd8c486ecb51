/**
 * The string helpers of src/extension.ts: `toPosix`, `basename`, `stripMdExt`,
 * and the pieces of JavaScript's string API the extension relies on
 * (`toLowerCase`, `includes`, `startsWith`, `endsWith`, `slice`).
 */
module Strings {

  /** A path separator, as the character class `[/\\]` of the source's regexes. */
  predicate IsSep(c: char)
  {
    c == '/' || c == '\\'
  }

  predicate StartsWith(s: string, prefix: string)
  {
    |prefix| <= |s| && s[..|prefix|] == prefix
  }

  predicate EndsWith(s: string, suffix: string)
  {
    |suffix| <= |s| && s[|s| - |suffix|..] == suffix
  }

  /** `s.slice(k)` for a non-negative `k`: JavaScript clamps `k` to the length. */
  function SliceFrom(s: string, k: nat): (r: string)
    ensures k <= |s| ==> |r| == |s| - k && forall i :: 0 <= i < |r| ==> r[i] == s[k + i]
    ensures k >= |s| ==> r == []
  {
    if k <= |s| then s[k..] else []
  }

  /** The one-character step of `toPosix`. */
  function PosixChar(c: char): char
  {
    if c == '\\' then '/' else c
  }

  /** `toPosix(p)`: `p.replace(/\\/g, '/')`. */
  function ToPosix(p: string): (r: string)
    ensures |r| == |p|
    ensures forall i :: 0 <= i < |p| ==> r[i] == PosixChar(p[i])
    ensures '\\' !in r
    ensures '\\' !in p ==> r == p
    decreases |p|
  {
    if p == [] then []
    else
      var rest := ToPosix(p[1..]);
      assert forall c :: c in [PosixChar(p[0])] + rest ==> c == PosixChar(p[0]) || c in rest;
      [PosixChar(p[0])] + rest
  }

  /** `p.replace(/[/\\]+$/, '')`: drop the maximal run of trailing separators. */
  function StripTrailingSeps(p: string): (r: string)
    ensures r <= p
    ensures r == [] || !IsSep(r[|r| - 1])
    ensures forall i :: |r| <= i < |p| ==> IsSep(p[i])
    decreases |p|
  {
    if p != [] && IsSep(p[|p| - 1]) then StripTrailingSeps(p[..|p| - 1]) else p
  }

  /** The index of the last separator of `s`, or -1 when it has none. */
  function LastSepIndex(s: string): (r: int)
    ensures -1 <= r < |s|
    ensures r >= 0 ==> IsSep(s[r])
    ensures forall j :: r < j < |s| ==> !IsSep(s[j])
    decreases |s|
  {
    if s == [] then -1
    else if IsSep(s[|s| - 1]) then |s| - 1
    else LastSepIndex(s[..|s| - 1])
  }

  /**
   * `s.split(/[/\\]/).pop()`: the text after the last separator of `s`
   * (all of `s` when it has none; empty when `s` ends in a separator).
   */
  function LastSegment(s: string): (r: string)
    ensures |r| <= |s| && r == s[|s| - |r|..]
    ensures forall i :: 0 <= i < |r| ==> !IsSep(r[i])
    ensures |r| == |s| || IsSep(s[|s| - |r| - 1])
  {
    s[LastSepIndex(s) + 1..]
  }

  /** Every character of `p` is a separator (so is the empty path). */
  predicate AllSeps(p: string)
  {
    forall i :: 0 <= i < |p| ==> IsSep(p[i])
  }

  /** `basename(p)`: the last segment of `p` without trailing separators, or `p` itself when that is empty. */
  function Basename(p: string): (r: string)
    ensures !AllSeps(p) ==>
      r != [] && (forall i :: 0 <= i < |r| ==> !IsSep(r[i])) && r == LastSegment(StripTrailingSeps(p))
    ensures AllSeps(p) ==> r == p
  {
    var stripped := StripTrailingSeps(p);
    var seg := LastSegment(stripped);
    assert stripped == [] ==> AllSeps(p);
    assert stripped != [] ==> LastSepIndex(stripped) < |stripped| - 1;
    if seg == [] then p else seg
  }

  /** `toLowerCase` on one character, for the ASCII letters. */
  function LowerChar(c: char): char
  {
    if 'A' <= c <= 'Z' then (c as int + 32) as char else c
  }

  /** `s.toLowerCase()`, restricted to ASCII case mapping. */
  function ToLower(s: string): (r: string)
    ensures |r| == |s|
    ensures forall i :: 0 <= i < |s| ==> r[i] == LowerChar(s[i])
    decreases |s|
  {
    if s == [] then [] else [LowerChar(s[0])] + ToLower(s[1..])
  }

  /** `s.includes(sub)`: `sub` occurs somewhere in `s`. */
  predicate Contains(s: string, sub: string)
    decreases |s|
  {
    StartsWith(s, sub) || (s != [] && Contains(s[1..], sub))
  }

  /** `sub` occurs in `s` starting at offset `i`. */
  predicate OccursAt(s: string, sub: string, i: int)
  {
    0 <= i <= |s| - |sub| && s[i..i + |sub|] == sub
  }

  /** `sub` occurs in `s` at some offset. */
  ghost predicate Occurs(s: string, sub: string)
  {
    exists i :: OccursAt(s, sub, i)
  }

  /** `includes` finds `sub` exactly when it occurs at some offset. */
  lemma {:induction false} ContainsAt(s: string, sub: string)
    ensures Contains(s, sub) <==> Occurs(s, sub)
    decreases |s|
  {
    if StartsWith(s, sub) {
      assert OccursAt(s, sub, 0);
    }
    if s != [] {
      ContainsAt(s[1..], sub);
      if Contains(s[1..], sub) {
        var i :| OccursAt(s[1..], sub, i);
        assert s[i + 1..i + 1 + |sub|] == sub;
        assert OccursAt(s, sub, i + 1);
      }
      if !StartsWith(s, sub) && exists i :: OccursAt(s, sub, i) {
        var i :| OccursAt(s, sub, i);
        assert i != 0;
        assert s[1..][i - 1..i - 1 + |sub|] == sub;
        assert OccursAt(s[1..], sub, i - 1);
      }
    }
  }

  /** The case-insensitive `.md` test of `stripMdExt`. */
  predicate HasMdExt(name: string)
  {
    EndsWith(ToLower(name), ".md")
  }

  /** `stripMdExt(name)`: drops the last three characters when the lowered name ends in `.md`. */
  function StripMdExt(name: string): (r: string)
    ensures r <= name
    ensures HasMdExt(name) ==> |r| == |name| - 3
    ensures !HasMdExt(name) ==> |r| == |name|
  {
    if HasMdExt(name) then name[..|name| - 3] else name
  }

  /** `stripMdExt` takes off an appended `.md`. */
  lemma StripMdExtOf(stem: string)
    ensures StripMdExt(stem + ".md") == stem
  {
    var name := stem + ".md";
    HasMdExtChars(name);
    assert name[|name| - 3..] == ".md";
    assert name[..|name| - 3] == stem;
  }

  /** The lowered name ends in `.md` exactly when the name ends in '.', 'm' or 'M', 'd' or 'D'. */
  lemma HasMdExtChars(name: string)
    ensures HasMdExt(name) <==>
      |name| >= 3 && name[|name| - 3] == '.' && name[|name| - 2] in "mM" && name[|name| - 1] in "dD"
  {
    var n := |name|;
    var low := ToLower(name);
    if n >= 3 {
      assert low[n - 3..] == [low[n - 3], low[n - 2], low[n - 1]];
    }
  }
}
