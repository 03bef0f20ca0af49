/**
 * The title sanitiser of the add-task dialog (`validateText`): first every
 * character of a fixed punctuation set is deleted, then every run of
 * spaces is replaced by a single space.
 */
module TaskTitle {

  /** The 32 characters of the first regular expression's character class. */
  const Specials: set<char> := {
    '.', ',', '\'', '_', '*', '+', '?', '^', '$', '<', '>', '=', '/', '#', '@', '!',
    '%', '&', '`', '~', '|', ';', ':', '"', '-', '{', '}', '(', ')', '[', ']', '\\'
  }

  predicate IsSpecial(c: char) {
    c in Specials
  }

  /** The printable ASCII characters that are neither letters, digits nor the space. */
  predicate IsAsciiPunctuation(c: char) {
    || '!' <= c <= '/'
    || ':' <= c <= '@'
    || '[' <= c <= '`'
    || '{' <= c <= '~'
  }

  /** The class lists exactly the 32 ASCII punctuation characters, so letters, digits, spaces and non-ASCII text stay. */
  lemma {:induction false} SpecialIsAsciiPunctuation(c: char)
    ensures IsSpecial(c) <==> IsAsciiPunctuation(c)
  {
    if IsAsciiPunctuation(c) {
      var n := c as int;
      assert 33 <= n <= 47 || 58 <= n <= 64 || 91 <= n <= 96 || 123 <= n <= 126;
      assert c == n as char;
    }
  }

  /** The first replacement: delete every special character. */
  function Strip(s: string): (r: string)
    ensures |r| <= |s|
    decreases |s|
  {
    if s == [] then [] else (if IsSpecial(s[0]) then [] else [s[0]]) + Strip(s[1..])
  }

  /** The leading spaces of `s` removed. */
  function SkipSpaces(s: string): (r: string)
    ensures |r| <= |s|
    ensures r == [] || r[0] != ' '
    decreases |s|
  {
    if s != [] && s[0] == ' ' then SkipSpaces(s[1..]) else s
  }

  /** What is left after the leading spaces is a suffix. */
  lemma {:induction false} SkipSpacesSuffix(s: string)
    ensures SkipSpaces(s) == s[|s| - |SkipSpaces(s)|..]
    decreases |s|
  {
    if s != [] && s[0] == ' ' {
      SkipSpacesSuffix(s[1..]);
      assert s[1..][|s| - 1 - |SkipSpaces(s)|..] == s[|s| - |SkipSpaces(s)|..];
    }
  }

  /** The second replacement (`/ +/g` to one space): each run of spaces becomes one space. */
  function Collapse(s: string): (r: string)
    ensures |r| <= |s| && (r == [] <==> s == [])
    decreases |s|
  {
    if s == [] then []
    else if s[0] == ' ' then " " + Collapse(SkipSpaces(s[1..]))
    else [s[0]] + Collapse(s[1..])
  }

  /** `validateText`: strip first, then collapse. */
  function ValidateText(s: string): (r: string)
    ensures |r| <= |s|
  {
    Collapse(Strip(s))
  }

  // ---------------------------------------------------------------------------
  // Reference predicates

  predicate NoSpecial(s: string) {
    forall i :: 0 <= i < |s| ==> !IsSpecial(s[i])
  }

  predicate NoDoubleSpace(s: string) {
    forall i :: 0 <= i < |s| - 1 ==> !(s[i] == ' ' && s[i + 1] == ' ')
  }

  /** The characters that both replacements keep: neither special nor a space, in order. */
  function Essential(s: string): string
    decreases |s|
  {
    if s == [] then [] else (if IsSpecial(s[0]) || s[0] == ' ' then [] else [s[0]]) + Essential(s[1..])
  }

  /** `a` is `b` with some characters deleted. */
  predicate IsSubsequence(a: string, b: string)
    decreases |b|
  {
    a == [] || (b != [] && ((a[0] == b[0] && IsSubsequence(a[1..], b[1..])) || IsSubsequence(a, b[1..])))
  }

  // ---------------------------------------------------------------------------
  // The first replacement

  lemma {:induction false} StripNoSpecial(s: string)
    ensures NoSpecial(Strip(s))
    decreases |s|
  {
    if s != [] {
      StripNoSpecial(s[1..]);
    }
  }

  /** Text without special characters passes the first replacement unchanged. */
  lemma {:induction false} StripKeeps(s: string)
    requires NoSpecial(s)
    ensures Strip(s) == s
    decreases |s|
  {
    if s != [] {
      StripKeeps(s[1..]);
    }
  }

  lemma {:induction false} StripSubsequence(s: string)
    ensures IsSubsequence(Strip(s), s)
    decreases |s|
  {
    if s != [] {
      StripSubsequence(s[1..]);
      var r := Strip(s);
      if IsSpecial(s[0]) {
        assert r == Strip(s[1..]);
      } else {
        assert r == [s[0]] + Strip(s[1..]);
        assert r[0] == s[0] && r[1..] == Strip(s[1..]);
      }
    }
  }

  /** Deleting only special characters keeps the essential ones, spaces included. */
  lemma {:induction false} StripEssential(s: string)
    ensures NonBlank(Strip(s)) == Essential(s)
    decreases |s|
  {
    if s != [] {
      StripEssential(s[1..]);
      NonBlankAppend(if IsSpecial(s[0]) then [] else [s[0]], Strip(s[1..]));
    }
  }

  // ---------------------------------------------------------------------------
  // The second replacement

  /** The spaces of `s` removed. */
  function NonBlank(s: string): string
    decreases |s|
  {
    if s == [] then [] else (if s[0] == ' ' then [] else [s[0]]) + NonBlank(s[1..])
  }

  lemma {:induction false} NonBlankAppend(a: string, b: string)
    ensures NonBlank(a + b) == NonBlank(a) + NonBlank(b)
    decreases |a|
  {
    if a != [] {
      var head := if a[0] == ' ' then [] else [a[0]];
      assert (a + b)[0] == a[0] && (a + b)[1..] == a[1..] + b;
      NonBlankAppend(a[1..], b);
      assert NonBlank(a) == head + NonBlank(a[1..]);
      assert NonBlank(a + b) == head + NonBlank(a[1..] + b);
      assert head + (NonBlank(a[1..]) + NonBlank(b)) == (head + NonBlank(a[1..])) + NonBlank(b);
    } else {
      assert a + b == b;
    }
  }

  lemma {:induction false} NonBlankSkip(s: string)
    ensures NonBlank(SkipSpaces(s)) == NonBlank(s)
    decreases |s|
  {
    if s != [] && s[0] == ' ' {
      NonBlankSkip(s[1..]);
    }
  }

  /** A non-empty text keeps its first character. */
  lemma {:induction false} CollapseHead(s: string)
    requires s != []
    ensures Collapse(s) != [] && Collapse(s)[0] == s[0]
  {
  }

  lemma {:induction false} CollapseNoDoubleSpace(s: string)
    ensures NoDoubleSpace(Collapse(s))
    decreases |s|
  {
    if s != [] {
      var rest := if s[0] == ' ' then SkipSpaces(s[1..]) else s[1..];
      CollapseNoDoubleSpace(rest);
      var r := Collapse(s);
      assert r == [s[0]] + Collapse(rest);
      if s[0] == ' ' && rest != [] {
        CollapseHead(rest);
      }
      forall i | 0 <= i < |r| - 1 ensures !(r[i] == ' ' && r[i + 1] == ' ') {
        if i > 0 {
          assert r[i] == Collapse(rest)[i - 1] && r[i + 1] == Collapse(rest)[i];
        }
      }
    }
  }

  /** Collapsing deletes spaces only: the other characters stay, in order. */
  lemma {:induction false} CollapseNonBlank(s: string)
    ensures NonBlank(Collapse(s)) == NonBlank(s)
    decreases |s|
  {
    if s != [] {
      var rest := if s[0] == ' ' then SkipSpaces(s[1..]) else s[1..];
      CollapseNonBlank(rest);
      NonBlankAppend([s[0]], Collapse(rest));
      if s[0] == ' ' {
        NonBlankSkip(s[1..]);
      }
    }
  }

  lemma {:induction false} CollapseNoSpecial(s: string)
    requires NoSpecial(s)
    ensures NoSpecial(Collapse(s))
    decreases |s|
  {
    if s != [] {
      var rest := if s[0] == ' ' then SkipSpaces(s[1..]) else s[1..];
      SkipSpacesSuffix(s[1..]);
      assert NoSpecial(rest) by {
        forall i | 0 <= i < |rest| ensures !IsSpecial(rest[i]) {
          assert rest[i] == s[|s| - |rest| + i];
        }
      }
      CollapseNoSpecial(rest);
      var r := Collapse(s);
      assert r == [s[0]] + Collapse(rest);
      forall i | 0 <= i < |r| ensures !IsSpecial(r[i]) {
        if i > 0 {
          assert r[i] == Collapse(rest)[i - 1];
        }
      }
    }
  }

  /** Text without two adjacent spaces passes the second replacement unchanged. */
  lemma {:induction false} CollapseKeeps(s: string)
    requires NoDoubleSpace(s)
    ensures Collapse(s) == s
    decreases |s|
  {
    if s != [] {
      assert NoDoubleSpace(s[1..]) by {
        forall i | 0 <= i < |s[1..]| - 1 ensures !(s[1..][i] == ' ' && s[1..][i + 1] == ' ') {
          assert s[1..][i] == s[i + 1] && s[1..][i + 1] == s[i + 2];
        }
      }
      if s[0] == ' ' && |s| > 1 {
        assert s[1] != ' ';
        assert SkipSpaces(s[1..]) == s[1..];
      }
      CollapseKeeps(s[1..]);
    }
  }

  lemma {:induction false} CollapseSubsequence(s: string)
    ensures IsSubsequence(Collapse(s), s)
    decreases |s|
  {
    if s != [] {
      var rest := if s[0] == ' ' then SkipSpaces(s[1..]) else s[1..];
      CollapseSubsequence(rest);
      if s[0] == ' ' {
        SkipSpacesSuffix(s[1..]);
        SubsequenceOfSuffix(Collapse(rest), s[1..], |s[1..]| - |rest|);
      }
      var r := Collapse(s);
      assert r[0] == s[0] && r[1..] == Collapse(rest);
    }
  }

  /** The number of maximal runs of spaces, counted at the last space of each run. */
  function SpaceRuns(s: string): nat
    decreases |s|
  {
    if s == [] then 0
    else (if s[0] == ' ' && (|s| == 1 || s[1] != ' ') then 1 else 0) + SpaceRuns(s[1..])
  }

  /** A text that starts with a space has one run more than what follows that run. */
  lemma {:induction false} SpaceRunsSkip(s: string)
    requires s != [] && s[0] == ' '
    ensures SpaceRuns(s) == 1 + SpaceRuns(SkipSpaces(s[1..]))
    decreases |s|
  {
    if |s| > 1 && s[1] == ' ' {
      SpaceRunsSkip(s[1..]);
      assert s[1..][1..] == s[2..];
    }
  }

  /** Each run of spaces becomes exactly one space: none vanishes and none splits. */
  lemma {:induction false} CollapseSpaceRuns(s: string)
    ensures SpaceRuns(Collapse(s)) == SpaceRuns(s)
    decreases |s|
  {
    if s != [] {
      var rest := if s[0] == ' ' then SkipSpaces(s[1..]) else s[1..];
      CollapseSpaceRuns(rest);
      var r := Collapse(s);
      assert r == [s[0]] + Collapse(rest) && r[1..] == Collapse(rest);
      if rest != [] {
        CollapseHead(rest);
      }
      if s[0] == ' ' {
        SpaceRunsSkip(s);
      }
    }
  }

  // ---------------------------------------------------------------------------
  // Subsequences

  /** A subsequence of a suffix is a subsequence of the whole. */
  lemma {:induction false} SubsequenceOfSuffix(a: string, b: string, n: nat)
    requires n <= |b| && IsSubsequence(a, b[n..])
    ensures IsSubsequence(a, b)
    decreases n
  {
    if n > 0 {
      assert b[1..][n - 1..] == b[n..];
      SubsequenceOfSuffix(a, b[1..], n - 1);
    }
  }

  lemma {:induction false} SubsequenceTransitive(a: string, b: string, c: string)
    requires IsSubsequence(a, b) && IsSubsequence(b, c)
    ensures IsSubsequence(a, c)
    decreases |c|, |b|
  {
    if a != [] {
      if b[0] == c[0] && IsSubsequence(b[1..], c[1..]) {
        if a[0] == b[0] && IsSubsequence(a[1..], b[1..]) {
          SubsequenceTransitive(a[1..], b[1..], c[1..]);
        } else {
          SubsequenceTransitive(a, b[1..], c[1..]);
        }
      } else {
        SubsequenceTransitive(a, b, c[1..]);
      }
    }
  }

  // ---------------------------------------------------------------------------
  // What validateText promises

  /** No special character survives. */
  lemma {:induction false} ValidateNoSpecial(s: string)
    ensures NoSpecial(ValidateText(s))
  {
    StripNoSpecial(s);
    CollapseNoSpecial(Strip(s));
  }

  /** No two spaces are adjacent in the result. */
  lemma {:induction false} ValidateNoDoubleSpace(s: string)
    ensures NoDoubleSpace(ValidateText(s))
  {
    CollapseNoDoubleSpace(Strip(s));
  }

  /**
   * The result is the input with characters deleted, and every character
   * that is neither special nor a space is kept, in order.
   */
  lemma {:induction false} ValidateKeepsEssential(s: string)
    ensures IsSubsequence(ValidateText(s), s)
    ensures NonBlank(ValidateText(s)) == Essential(s)
  {
    StripSubsequence(s);
    CollapseSubsequence(Strip(s));
    SubsequenceTransitive(ValidateText(s), Strip(s), s);
    CollapseNonBlank(Strip(s));
    StripEssential(s);
  }

  /** The title keeps one space for each run of spaces left once the special characters are gone. */
  lemma {:induction false} ValidateSpaceRuns(s: string)
    ensures SpaceRuns(ValidateText(s)) == SpaceRuns(Strip(s))
  {
    CollapseSpaceRuns(Strip(s));
  }

  /** A sanitised title is sanitised already. */
  lemma {:induction false} ValidateIdempotent(s: string)
    ensures ValidateText(ValidateText(s)) == ValidateText(s)
  {
    var r := ValidateText(s);
    ValidateNoSpecial(s);
    ValidateNoDoubleSpace(s);
    StripKeeps(r);
    CollapseKeeps(r);
  }

  lemma {:induction false} StripCons(c: char, s: string)
    ensures Strip([c] + s) == (if IsSpecial(c) then [] else [c]) + Strip(s)
  {
    assert ([c] + s)[1..] == s;
  }

  lemma StripExample()
    ensures Strip("a - b") == "a  b"
  {
    SpecialIsAsciiPunctuation('a');
    SpecialIsAsciiPunctuation(' ');
    SpecialIsAsciiPunctuation('-');
    SpecialIsAsciiPunctuation('b');
    StripCons('b', "");
    StripCons(' ', "b");
    StripCons('-', " b");
    StripCons(' ', "- b");
    StripCons('a', " - b");
  }

  lemma CollapseExample()
    ensures Collapse("a  b") == "a b"
  {
    assert "a  b"[1..] == "  b" && "  b"[1..] == " b" && " b"[1..] == "b" && "b"[1..] == "";
    assert Collapse("b") == "b";
    assert SkipSpaces(" b") == "b";
    assert Collapse("  b") == " b";
  }

  /** Stripping comes first, so the spaces around a deleted dash merge. */
  lemma ValidateExample()
    ensures ValidateText("a - b") == "a b"
  {
    StripExample();
    CollapseExample();
  }
}
