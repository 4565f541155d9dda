/** The text post-pass applied to every serialized document: each `[`,
    followed by a (possibly empty) run of whitespace and then `]`, becomes
    `[]`. The pass is a left-to-right regular-expression replacement and does
    not look at JSON structure. */
module JsonFormatting {
  import opened Text

  /** Length of the whitespace run at the start of `s` (what a greedy `\s*` takes). */
  function LeadingSpaces(s: string): (n: nat)
    ensures n <= |s|
    ensures AllWhiteSpace(s[..n])
    ensures n < |s| ==> !IsWhiteSpace(s[n])
  {
    if s != [] && IsWhiteSpace(s[0]) then 1 + LeadingSpaces(s[1..]) else 0
  }

  /** The pattern matches at the start of `s`. */
  predicate EmptyArrayAt(s: string)
  {
    s != [] && s[0] == '[' && 1 + LeadingSpaces(s[1..]) < |s| && s[1 + LeadingSpaces(s[1..])] == ']'
  }

  /** `CleanEmptyArrays(json)`: replace every match of `\[\s*\]` by `[]`. */
  function CleanEmptyArrays(json: string): (r: string)
    ensures |r| <= |json|
    decreases |json|
  {
    if json == [] then []
    else if EmptyArrayAt(json) then "[]" + CleanEmptyArrays(json[2 + LeadingSpaces(json[1..])..])
    else [json[0]] + CleanEmptyArrays(json[1..])
  }

  /** No `[` is followed by one or more whitespace characters and then `]`. */
  predicate NoPaddedEmptyArray(s: string)
  {
    forall i, j :: 0 <= i && i + 1 < j < |s| && s[i] == '[' && s[j] == ']' ==> !AllWhiteSpace(s[i + 1..j])
  }

  /** `s` with its whitespace characters dropped. */
  function Squeeze(s: string): (r: string)
    ensures |r| <= |s|
  {
    if s == [] then []
    else (if IsWhiteSpace(s[0]) then [] else [s[0]]) + Squeeze(s[1..])
  }

  lemma {:induction false} SqueezeAppend(a: string, b: string)
    ensures Squeeze(a + b) == Squeeze(a) + Squeeze(b)
  {
    if a == [] {
      assert a + b == b;
    } else {
      assert (a + b)[1..] == a[1..] + b;
      SqueezeAppend(a[1..], b);
    }
  }

  lemma {:induction false} SqueezeWhiteSpace(w: string)
    requires AllWhiteSpace(w)
    ensures Squeeze(w) == []
  {
    if w != [] {
      SqueezeWhiteSpace(w[1..]);
    }
  }

  /** The first character always survives. */
  lemma FirstCharKept(s: string)
    requires s != []
    ensures CleanEmptyArrays(s) != [] && CleanEmptyArrays(s)[0] == s[0]
  {
  }

  /** No match of the pattern starts inside `a` when `y` follows it. */
  predicate NoMatchStartsIn(a: string, y: string)
  {
    forall i :: 0 <= i < |a| ==> !EmptyArrayAt((a + y)[i..])
  }

  /** Text in which no match starts passes through unchanged, whitespace and
      stray brackets included. */
  lemma {:induction false} CleanPrefix(a: string, y: string)
    requires NoMatchStartsIn(a, y)
    ensures CleanEmptyArrays(a + y) == a + CleanEmptyArrays(y)
  {
    if a != [] {
      NoMatchTail(a, y);
      CleanPrefix(a[1..], y);
      ConsParts(a, y, CleanEmptyArrays(y));
    } else {
      assert a + y == y;
    }
  }

  lemma NoMatchTail(a: string, y: string)
    requires a != [] && NoMatchStartsIn(a, y)
    ensures NoMatchStartsIn(a[1..], y)
    ensures CleanEmptyArrays(a + y) == [a[0]] + CleanEmptyArrays(a[1..] + y)
  {
    assert (a + y)[0..] == a + y;
    assert (a + y)[0] == a[0];
    assert (a + y)[1..] == a[1..] + y;
    forall i | 0 <= i < |a[1..]|
      ensures !EmptyArrayAt((a[1..] + y)[i..])
    {
      assert (a[1..] + y)[i..] == (a + y)[i + 1..];
    }
  }

  lemma ConsParts(a: string, y: string, z: string)
    requires a != []
    ensures [a[0]] + (a[1..] + z) == a + z
  {
    assert a == [a[0]] + a[1..];
  }

  /** No match starts inside text without `[`. */
  lemma BracketFreeUnmatched(a: string, y: string)
    requires '[' !in a
    ensures NoMatchStartsIn(a, y)
  {
    forall i | 0 <= i < |a|
      ensures !EmptyArrayAt((a + y)[i..])
    {
      assert (a + y)[i..][0] == a[i];
    }
  }

  lemma {:induction false} LeadingSpacesOf(w: string, x: string)
    requires AllWhiteSpace(w)
    requires x == [] || !IsWhiteSpace(x[0])
    ensures LeadingSpaces(w + x) == |w|
  {
    if w != [] {
      assert (w + x)[1..] == w[1..] + x;
      LeadingSpacesOf(w[1..], x);
    } else {
      assert w + x == x;
    }
  }

  /** A bracketed whitespace run squeezes to `[]`. */
  lemma SqueezeBracketRun(w: string, rest: string)
    requires AllWhiteSpace(w)
    ensures Squeeze("[" + w + "]" + rest) == "[]" + Squeeze(rest)
  {
    SqueezeWhiteSpace(w);
    SqueezeAppend("[" + w + "]", rest);
    SqueezeAppend("[" + w, "]");
    SqueezeAppend("[", w);
  }

  /** Cleaning only ever removes whitespace: with all whitespace dropped, the
      text is unchanged, so every other character survives, in order. (That
      the whitespace outside the matches survives too is `CleanPrefix`.) */
  lemma {:induction false} CleanKeepsNonWhiteSpace(s: string)
    ensures Squeeze(CleanEmptyArrays(s)) == Squeeze(s)
    decreases |s|
  {
    if s != [] {
      if EmptyArrayAt(s) {
        var n := LeadingSpaces(s[1..]);
        var w, rest := s[1..1 + n], s[2 + n..];
        MatchParts(s);
        CleanKeepsNonWhiteSpace(rest);
        KeepsAcrossMatch(w, rest);
      } else {
        CleanKeepsNonWhiteSpace(s[1..]);
        SqueezeAppend([s[0]], CleanEmptyArrays(s[1..]));
      }
    }
  }

  /** A match splits the text into `[`, a whitespace run, `]` and the rest. */
  lemma MatchParts(s: string)
    requires EmptyArrayAt(s)
    ensures var n := LeadingSpaces(s[1..]);
            AllWhiteSpace(s[1..1 + n]) && s == "[" + s[1..1 + n] + "]" + s[2 + n..]
  {
    var n := LeadingSpaces(s[1..]);
    assert s[1..1 + n] == s[1..][..n];
  }

  lemma KeepsAcrossMatch(w: string, rest: string)
    requires AllWhiteSpace(w)
    requires Squeeze(CleanEmptyArrays(rest)) == Squeeze(rest)
    ensures Squeeze(CleanEmptyArrays("[" + w + "]" + rest)) == Squeeze("[" + w + "]" + rest)
  {
    CleanAtMatch(w, rest);
    SqueezeBracketRun(w, rest);
    SqueezeAppend("[]", CleanEmptyArrays(rest));
  }

  /** After the pass no padded empty array remains. */
  lemma {:induction false} CleanLeavesNoPadding(s: string)
    ensures NoPaddedEmptyArray(CleanEmptyArrays(s))
    decreases |s|
  {
    if s != [] {
      if EmptyArrayAt(s) {
        var rest := s[2 + LeadingSpaces(s[1..])..];
        CleanLeavesNoPadding(rest);
        PrependClosed(CleanEmptyArrays(rest));
      } else {
        CleanLeavesNoPadding(s[1..]);
        if s[0] == '[' {
          var n := LeadingSpaces(s[1..]);
          var w := s[1..][..n];
          var x := s[1..][n..];
          assert s[1..] == w + x;
          BracketFreeUnmatched(w, x);
          CleanPrefix(w, x);
          if x != [] {
            FirstCharKept(x);
            assert x[0] == s[1 + n];
          }
        }
        PrependOpenBracket(s[0], CleanEmptyArrays(s[1..]));
      }
    }
  }

  /** Putting `[]` in front of unpadded text keeps it unpadded. */
  lemma PrependClosed(t: string)
    requires NoPaddedEmptyArray(t)
    ensures NoPaddedEmptyArray("[]" + t)
  {
    var r := "[]" + t;
    forall i, j | 0 <= i && i + 1 < j < |r| && r[i] == '[' && r[j] == ']'
      ensures !AllWhiteSpace(r[i + 1..j])
    {
      if i == 0 {
        assert r[i + 1..j][0] == ']';
      } else if i >= 2 {
        assert r[i + 1..j] == t[i - 1..j - 2];
        assert t[i - 2] == '[' && t[j - 2] == ']';
      }
    }
  }

  /** Putting a character in front of unpadded text keeps it unpadded, unless
      the character is `[` and the text opens with whitespace and then `]`. */
  lemma PrependOpenBracket(c: char, t: string)
    requires NoPaddedEmptyArray(t)
    requires c == '[' ==> exists w, x :: t == w + x && AllWhiteSpace(w) && (x == [] || (!IsWhiteSpace(x[0]) && x[0] != ']'))
    ensures NoPaddedEmptyArray([c] + t)
  {
    var r := [c] + t;
    forall i, j | 0 <= i && i + 1 < j < |r| && r[i] == '[' && r[j] == ']'
      ensures !AllWhiteSpace(r[i + 1..j])
    {
      assert r[i + 1..j] == t[i..j - 1];
      if i >= 1 {
        assert t[i - 1] == '[' && t[j - 1] == ']';
      } else {
        var w, x :| t == w + x && AllWhiteSpace(w) && (x == [] || (!IsWhiteSpace(x[0]) && x[0] != ']'));
        if j - 1 >= |w| {
          assert t[|w|] == x[0];
        }
      }
    }
  }

  lemma NoPaddingSuffix(s: string, k: nat)
    requires NoPaddedEmptyArray(s) && k <= |s|
    ensures NoPaddedEmptyArray(s[k..])
  {
    var u := s[k..];
    forall i, j | 0 <= i && i + 1 < j < |u| && u[i] == '[' && u[j] == ']'
      ensures !AllWhiteSpace(u[i + 1..j])
    {
      assert u[i + 1..j] == s[k + i + 1..k + j];
      assert s[k + i] == '[' && s[k + j] == ']';
    }
  }

  /** Text with no padded empty array is left exactly as it is. */
  lemma {:induction false} CleanFixesUnpadded(s: string)
    requires NoPaddedEmptyArray(s)
    ensures CleanEmptyArrays(s) == s
    decreases |s|
  {
    if s != [] {
      var n := LeadingSpaces(s[1..]);
      if EmptyArrayAt(s) {
        assert n == 0 by {
          assert s[1..1 + n] == s[1..][..n];
        }
        NoPaddingSuffix(s, 2);
        CleanFixesUnpadded(s[2..]);
        assert s == "[]" + s[2..];
      } else {
        NoPaddingSuffix(s, 1);
        CleanFixesUnpadded(s[1..]);
      }
    }
  }

  /** Applying the pass twice gives what applying it once gives. */
  lemma CleanIdempotent(s: string)
    ensures CleanEmptyArrays(CleanEmptyArrays(s)) == CleanEmptyArrays(s)
  {
    CleanLeavesNoPadding(s);
    CleanFixesUnpadded(CleanEmptyArrays(s));
  }

  /** A pass that does not shorten the text changed nothing. */
  lemma {:induction false} SameLengthUnchanged(s: string)
    requires |CleanEmptyArrays(s)| == |s|
    ensures CleanEmptyArrays(s) == s
    decreases |s|
  {
    if s != [] {
      if EmptyArrayAt(s) {
        var n := LeadingSpaces(s[1..]);
        assert n == 0;
        SameLengthUnchanged(s[2..]);
        assert s == "[]" + s[2..];
      } else {
        SameLengthUnchanged(s[1..]);
      }
    }
  }

  /** The output has the input's length exactly when nothing was collapsed,
      which is exactly when the input has no padded empty array. */
  lemma CleanLengthIff(s: string)
    ensures |CleanEmptyArrays(s)| == |s| <==> CleanEmptyArrays(s) == s
    ensures CleanEmptyArrays(s) == s <==> NoPaddedEmptyArray(s)
  {
    if |CleanEmptyArrays(s)| == |s| {
      SameLengthUnchanged(s);
    }
    if NoPaddedEmptyArray(s) {
      CleanFixesUnpadded(s);
    }
    CleanLeavesNoPadding(s);
  }

  /** Text without any `[` is returned unchanged. */
  lemma CleanWithoutBracket(s: string)
    requires '[' !in s
    ensures CleanEmptyArrays(s) == s
  {
    BracketFreeUnmatched(s, []);
    CleanPrefix(s, []);
    assert s + [] == s;
  }

  /** The first padded empty array is collapsed to `[]`, the text before it
      (in which no match starts) is kept exactly, whitespace included, and the
      rest is cleaned on its own. This holds inside a JSON string literal too:
      the pass sees only text. */
  lemma CleanCollapses(a: string, w: string, b: string)
    requires NoMatchStartsIn(a, "[" + w + "]" + b) && AllWhiteSpace(w)
    ensures CleanEmptyArrays(a + "[" + w + "]" + b) == a + "[]" + CleanEmptyArrays(b)
  {
    var y := "[" + w + "]" + b;
    assert a + "[" + w + "]" + b == a + y;
    CleanPrefix(a, y);
    CleanAtMatch(w, b);
  }

  /** A match at the very start becomes `[]`. */
  lemma CleanAtMatch(w: string, b: string)
    requires AllWhiteSpace(w)
    ensures CleanEmptyArrays("[" + w + "]" + b) == "[]" + CleanEmptyArrays(b)
  {
    var y := "[" + w + "]" + b;
    assert y[1..] == w + ("]" + b);
    LeadingSpacesOf(w, "]" + b);
    assert y[2 + |w|..] == b;
  }

  /** A string value holding `[ ]` is rewritten to `[]` as well. */
  lemma CleanRewritesStringLiteral()
    ensures CleanEmptyArrays("{\"Name\": \"[ \t]\"}") == "{\"Name\": \"[]\"}"
  {
    var a, w, b := "{\"Name\": \"", " \t", "\"}";
    LiteralParts(a, w, b);
    BracketFreeUnmatched(a, "[" + w + "]" + b);
    CleanCollapses(a, w, b);
    CleanWithoutBracket(b);
  }

  /** A `[` that does not start a match keeps the whitespace after it, even
      when a match follows later in the text. */
  lemma CleanKeepsUnmatchedSpace()
    ensures CleanEmptyArrays("[1,  [ ]]") == "[1,  []]"
  {
    var a', w, b := "1,  ", " ", "]";
    assert a'[0] == '1';
    UnmatchedOpen(a', "[" + w + "]" + b);
    UnmatchedParts(a', w, b);
    CleanCollapses("[" + a', w, b);
    CleanWithoutBracket(b);
  }

  /** A `[` followed by bracket-free text that opens with neither whitespace
      nor `]` starts no match, and neither does any later position of that text. */
  lemma UnmatchedOpen(a': string, y: string)
    requires '[' !in a' && a' != [] && !IsWhiteSpace(a'[0]) && a'[0] != ']'
    ensures NoMatchStartsIn("[" + a', y)
  {
    var a := "[" + a';
    BracketFreeUnmatched(a', y);
    forall i | 0 <= i < |a|
      ensures !EmptyArrayAt((a + y)[i..])
    {
      if i == 0 {
        assert (a + y)[0..][1..] == a' + y;
        assert (a' + y)[0] == a'[0];
      } else {
        assert (a + y)[i..] == (a' + y)[i - 1..];
      }
    }
  }

  lemma UnmatchedParts(a': string, w: string, b: string)
    requires a' == "1,  " && w == " " && b == "]"
    ensures "[" + a' + "[" + w + "]" + b == "[1,  [ ]]"
    ensures "[" + a' + "[]" + b == "[1,  []]"
  {
  }

  lemma LiteralParts(a: string, w: string, b: string)
    requires a == "{\"Name\": \"" && w == " \t" && b == "\"}"
    ensures a + "[" + w + "]" + b == "{\"Name\": \"[ \t]\"}"
    ensures a + "[]" + b == "{\"Name\": \"[]\"}"
  {
  }
}
