/** Text matching used by the classifiers: ASCII case folding (`ToLower`) and
    ordinal substring search (`Contains`), plus the "any of these words" scans
    that `CyberneticTrader.IsCyberneticImplant` writes as `Any(...)` calls
    and early-exit loops. */
module Text {

  /** ASCII case folding of one character: the result is never an upper-case
      letter, an upper-case letter becomes its lower-case partner, and every
      other character is kept. */
  function LowerChar(c: char): (r: char)
    ensures !('A' <= r <= 'Z')
    ensures 'A' <= c <= 'Z' ==> 'a' <= r <= 'z' && r as int - c as int == 'a' as int - 'A' as int
    ensures !('A' <= c <= 'Z') ==> r == c
  {
    if 'A' <= c <= 'Z' then (c as int + 32) as char else c
  }

  /** No ASCII upper-case letter occurs in `s`. */
  predicate IsFolded(s: string) {
    forall i :: 0 <= i < |s| ==> !('A' <= s[i] <= 'Z')
  }

  /** `ToLower`: folds every character, keeps the length and leaves nothing to fold. */
  function ToLower(s: string): (r: string)
    ensures |r| == |s|
    ensures forall i :: 0 <= i < |s| ==> r[i] == LowerChar(s[i])
    ensures IsFolded(r)
  {
    if s == [] then [] else [LowerChar(s[0])] + ToLower(s[1..])
  }

  /** Folding text that is already folded changes nothing. */
  lemma ToLowerOfFolded(s: string)
    requires IsFolded(s)
    ensures ToLower(s) == s
  {
  }

  /** Folding twice is folding once. */
  lemma ToLowerIdempotent(s: string)
    ensures ToLower(ToLower(s)) == ToLower(s)
  {
    ToLowerOfFolded(ToLower(s));
  }

  predicate StartsWith(s: string, prefix: string) {
    |prefix| <= |s| && s[..|prefix|] == prefix
  }

  predicate EndsWith(s: string, suffix: string) {
    |suffix| <= |s| && s[|s| - |suffix|..] == suffix
  }

  /** `sub` occurs in `s` starting at index `i`. */
  ghost predicate OccursAt(s: string, sub: string, i: int) {
    0 <= i && i + |sub| <= |s| && s[i..i + |sub|] == sub
  }

  /** `s.Contains(sub)`: an ordinal search that tries every start position in turn. */
  function Contains(s: string, sub: string): bool
  {
    StartsWith(s, sub) || (s != [] && Contains(s[1..], sub))
  }

  /** The search finds `sub` exactly when it occurs somewhere in `s`. */
  lemma {:induction false} ContainsIff(s: string, sub: string)
    ensures Contains(s, sub) <==> exists i :: OccursAt(s, sub, i)
  {
    if s == [] {
      if sub == [] {
        assert OccursAt(s, sub, 0);
      }
      if exists i :: OccursAt(s, sub, i) {
        var i :| OccursAt(s, sub, i);
        assert i == 0 && sub == [];
        assert StartsWith(s, sub);
      }
    } else {
      ContainsIff(s[1..], sub);
      if StartsWith(s, sub) {
        assert OccursAt(s, sub, 0);
      } else if Contains(s[1..], sub) {
        var i :| OccursAt(s[1..], sub, i);
        assert s[1..][i..i + |sub|] == s[i + 1..i + 1 + |sub|];
        assert OccursAt(s, sub, i + 1);
      }
      if exists i :: OccursAt(s, sub, i) {
        var i :| OccursAt(s, sub, i);
        if i > 0 {
          assert s[1..][i - 1..i - 1 + |sub|] == s[i..i + |sub|];
          assert OccursAt(s[1..], sub, i - 1);
        }
      }
    }
  }

  /** `words.Any(w => s.Contains(w))`. */
  function ContainsAny(s: string, words: seq<string>): (r: bool)
    ensures r <==> exists j :: 0 <= j < |words| && Contains(s, words[j])
  {
    if words == [] then false
    else Contains(s, words[0]) || ContainsAny(s, words[1..])
  }

  /** Some word of the list occurs somewhere in `s`. */
  ghost predicate MentionsAny(s: string, words: seq<string>) {
    exists w, i :: w in words && OccursAt(s, w, i)
  }

  /** The executable scan agrees with the positional reading. */
  lemma ContainsAnyIff(s: string, words: seq<string>)
    ensures ContainsAny(s, words) <==> MentionsAny(s, words)
  {
    forall w | w in words {
      ContainsIff(s, w);
    }
    if ContainsAny(s, words) {
      var j :| 0 <= j < |words| && Contains(s, words[j]);
      var i :| OccursAt(s, words[j], i);
      assert words[j] in words;
    }
    if MentionsAny(s, words) {
      var w, i :| w in words && OccursAt(s, w, i);
      var j :| 0 <= j < |words| && words[j] == w;
      assert Contains(s, words[j]);
    }
  }
}
