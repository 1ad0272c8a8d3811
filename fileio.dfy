/** `sanitize_filename`: turns an arbitrary label into a safe file name. */
module FileIO {

  /** The characters the second pass erases: `[]()/\:*?"<>|`. */
  predicate IsForbidden(c: char)
  {
    c in "[]()/\\:*?\"<>|"
  }

  /** What one input character becomes in the output: forbidden characters
      vanish, spaces and dots become underscores, everything else stays. */
  function CleanChar(c: char): string
  {
    if IsForbidden(c) then "" else if c == ' ' || c == '.' then "_" else [c]
  }

  /** The sanitised name, character by character (reference definition). */
  function CleanName(s: string): string
  {
    if |s| == 0 then "" else CleanName(s[..|s| - 1]) + CleanChar(s[|s| - 1])
  }

  /** `std::replace(from, to)` over a whole string. */
  function Replaced(s: string, from: char, to: char): string
  {
    if |s| == 0 then ""
    else Replaced(s[..|s| - 1], from, to) + [if s[|s| - 1] == from then to else s[|s| - 1]]
  }

  /** `erase(remove_if(IsForbidden))`: the string without its forbidden characters. */
  function WithoutForbidden(s: string): string
  {
    if |s| == 0 then ""
    else WithoutForbidden(s[..|s| - 1]) + (if IsForbidden(s[|s| - 1]) then "" else [s[|s| - 1]])
  }

  /** A name the sanitiser leaves alone. */
  predicate IsClean(s: string)
  {
    forall i :: 0 <= i < |s| ==> s[i] != ' ' && s[i] != '.' && !IsForbidden(s[i])
  }

  lemma {:induction false} ReplacedLength(s: string, from: char, to: char)
    ensures |Replaced(s, from, to)| == |s|
  {
    if |s| > 0 {
      ReplacedLength(s[..|s| - 1], from, to);
    }
  }

  /** The three passes of the C++ code compute the one-pass reference. */
  lemma {:induction false} PassesAreCleanName(s: string)
    ensures Replaced(WithoutForbidden(Replaced(s, ' ', '_')), '.', '_') == CleanName(s)
  {
    if |s| > 0 {
      var t, c := s[..|s| - 1], s[|s| - 1];
      PassesAreCleanName(t);
      var r1 := Replaced(t, ' ', '_');
      var d := if c == ' ' then '_' else c;
      ReplacedLength(t, ' ', '_');
      assert Replaced(s, ' ', '_') == r1 + [d];
      assert (r1 + [d])[..|r1|] == r1;
      var w := WithoutForbidden(r1);
      if IsForbidden(d) {
        assert WithoutForbidden(r1 + [d]) == w;
      } else {
        assert WithoutForbidden(r1 + [d]) == w + [d];
        assert (w + [d])[..|w|] == w;
      }
    }
  }

  lemma {:induction false} CleanNameAppend(s: string, t: string)
    ensures CleanName(s + t) == CleanName(s) + CleanName(t)
    decreases |t|
  {
    if |t| == 0 {
      assert s + t == s;
    } else {
      var t', c := t[..|t| - 1], t[|t| - 1];
      var st := s + t;
      assert st[..|st| - 1] == s + t' && st[|st| - 1] == c;
      assert CleanName(st) == CleanName(s + t') + CleanChar(c);
      CleanNameAppend(s, t');
      assert CleanName(t) == CleanName(t') + CleanChar(c);
    }
  }

  /** Spaces and dots become `_`, forbidden characters are dropped, and the
      result holds none of them. */
  lemma {:induction false} CleanNameIsClean(s: string)
    ensures IsClean(CleanName(s))
  {
    if |s| > 0 {
      CleanNameIsClean(s[..|s| - 1]);
    }
  }

  /** Sanitising never lengthens the name. */
  lemma {:induction false} CleanNameNotLonger(s: string)
    ensures |CleanName(s)| <= |s|
  {
    if |s| > 0 {
      CleanNameNotLonger(s[..|s| - 1]);
    }
  }

  /** A clean name comes back unchanged: every other character is kept, and
      with CleanNameAppend, kept in its original order. */
  lemma {:induction false} CleanNameKeepsClean(s: string)
    requires IsClean(s)
    ensures CleanName(s) == s
  {
    if |s| > 0 {
      CleanNameKeepsClean(s[..|s| - 1]);
    }
  }

  /** Sanitising twice is sanitising once. */
  lemma CleanNameIdempotent(s: string)
    ensures CleanName(CleanName(s)) == CleanName(s)
  {
    CleanNameIsClean(s);
    CleanNameKeepsClean(CleanName(s));
  }

  /** Character j of a replacement pass. */
  lemma {:induction false} ReplacedAt(s: string, from: char, to: char, j: nat)
    requires j < |s|
    ensures |Replaced(s, from, to)| == |s|
    ensures Replaced(s, from, to)[j] == if s[j] == from then to else s[j]
  {
    ReplacedLength(s, from, to);
    ReplacedLength(s[..|s| - 1], from, to);
    if j < |s| - 1 {
      ReplacedAt(s[..|s| - 1], from, to, j);
    }
  }

  /** `std::replace(from, to)` on a working copy, position by position. */
  method ReplaceAll(s: string, from: char, to: char) returns (r: string)
    ensures r == Replaced(s, from, to)
  {
    r := s;
    for i := 0 to |r|
      invariant |r| == |s|
      invariant forall j :: 0 <= j < i ==> r[j] == if s[j] == from then to else s[j]
      invariant forall j :: i <= j < |s| ==> r[j] == s[j]
    {
      if r[i] == from {
        r := r[i := to];
      }
    }
    ReplacedLength(s, from, to);
    forall j | 0 <= j < |s|
      ensures r[j] == Replaced(s, from, to)[j]
    {
      ReplacedAt(s, from, to, j);
    }
  }

  /** `erase(remove_if(IsForbidden))`: moves the surviving characters to the
      front, in order, then cuts the string after the last survivor. */
  method EraseForbidden(s: string) returns (r: string)
    ensures r == WithoutForbidden(s)
  {
    r := s;
    var kept := 0;
    for i := 0 to |r|
      invariant |r| == |s| && kept <= i
      invariant r[..kept] == WithoutForbidden(s[..i])
      invariant forall j :: i <= j < |s| ==> r[j] == s[j]
    {
      assert s[..i + 1][..i] == s[..i];
      if !IsForbidden(r[i]) {
        ghost var before := r[..kept];
        r := r[kept := r[i]];
        assert r[..kept + 1] == before + [s[i]];
        kept := kept + 1;
      }
    }
    assert s[..|s|] == s;
    r := r[..kept];
  }

  /** `sanitize_filename`: replaces spaces, erases forbidden characters, then
      replaces dots, each pass over a working copy of the input. */
  method SanitizeFilename(input: string) returns (output: string)
    ensures output == CleanName(input)
    ensures IsClean(output) && |output| <= |input|
  {
    output := ReplaceAll(input, ' ', '_');
    output := EraseForbidden(output);
    output := ReplaceAll(output, '.', '_');
    PassesAreCleanName(input);
    CleanNameIsClean(input);
    CleanNameNotLonger(input);
  }
}
