/**
 * The few operations on Python strings that the core relies on:
 * `str.isspace`, `str.strip`/`lstrip`/`rstrip`, `str.startswith` and
 * `str.split(sep)` with a one-character separator.
 */
module Text {

  /** The characters for which Python's `str.isspace()` holds; `str.strip()`
      with no argument and the regular-expression class `\s` use the same set. */
  predicate IsSpace(c: char) {
    ('\t' <= c <= '\r') || ('\U{1C}' <= c <= ' ') || c == '\U{85}' || c == '\U{A0}'
    || c == '\U{1680}' || ('\U{2000}' <= c <= '\U{200A}') || c == '\U{2028}' || c == '\U{2029}'
    || c == '\U{202F}' || c == '\U{205F}' || c == '\U{3000}'
  }

  predicate AllSpace(s: string) {
    forall i :: 0 <= i < |s| ==> IsSpace(s[i])
  }

  /** `s.lstrip()`. */
  function LStrip(s: string): string {
    if s != [] && IsSpace(s[0]) then LStrip(s[1..]) else s
  }

  /** `s.rstrip()`. */
  function RStrip(s: string): string {
    if s != [] && IsSpace(s[|s| - 1]) then RStrip(s[..|s| - 1]) else s
  }

  /** `s.strip()`. */
  function Strip(s: string): string {
    RStrip(LStrip(s))
  }

  /** `lstrip` keeps the longest suffix that does not start with whitespace. */
  lemma {:induction false} LStripShape(s: string)
    ensures var r := LStrip(s);
      && |r| <= |s| && r == s[|s| - |r|..]
      && AllSpace(s[..|s| - |r|])
      && (r == [] || !IsSpace(r[0]))
  {
    if s != [] && IsSpace(s[0]) {
      var t := s[1..];
      LStripShape(t);
      var r := LStrip(t);
      assert t[|t| - |r|..] == s[|s| - |r|..];
      forall k | 0 <= k < |s| - |r|
        ensures IsSpace(s[k])
      {
        if k > 0 {
          assert t[..|t| - |r|][k - 1] == s[k];
        }
      }
      assert forall k :: 0 <= k < |s| - |r| ==> s[..|s| - |r|][k] == s[k];
    }
  }

  /** `lstrip` stops at the first character that is not whitespace. */
  lemma {:induction false} LStripAt(s: string, k: nat)
    requires k <= |s| && (forall m :: 0 <= m < k ==> IsSpace(s[m])) && (k < |s| ==> !IsSpace(s[k]))
    ensures LStrip(s) == s[k..]
  {
    if k > 0 {
      LStripAt(s[1..], k - 1);
      assert s[1..][k - 1..] == s[k..];
    }
  }

  /** `rstrip` keeps the longest prefix that does not end with whitespace. */
  lemma {:induction false} RStripShape(s: string)
    ensures var r := RStrip(s);
      && |r| <= |s| && r == s[..|r|]
      && AllSpace(s[|r|..])
      && (r == [] || !IsSpace(r[|r| - 1]))
  {
    if s != [] && IsSpace(s[|s| - 1]) {
      var t := s[..|s| - 1];
      RStripShape(t);
      var r := RStrip(t);
      assert t[..|r|] == s[..|r|];
      forall k | |r| <= k < |s|
        ensures IsSpace(s[k])
      {
        if k < |s| - 1 {
          assert t[|r|..][k - |r|] == s[k];
        }
      }
      assert forall k :: 0 <= k < |s[|r|..]| ==> s[|r|..][k] == s[|r| + k];
    }
  }

  /** `rstrip` stops after the last character that is not whitespace. */
  lemma {:induction false} RStripAt(s: string, k: nat)
    requires k <= |s| && (forall m :: k <= m < |s| ==> IsSpace(s[m])) && (k > 0 ==> !IsSpace(s[k - 1]))
    ensures RStrip(s) == s[..k]
    decreases |s| - k
  {
    if k < |s| {
      RStripAt(s[..|s| - 1], k);
      assert s[..|s| - 1][..k] == s[..k];
    }
  }

  /** `strip` keeps exactly the text between the whitespace at either end. */
  lemma StripAt(s: string, i: nat, j: nat)
    requires i < j <= |s|
    requires (forall m :: 0 <= m < i ==> IsSpace(s[m])) && (forall m :: j <= m < |s| ==> IsSpace(s[m]))
    requires !IsSpace(s[i]) && !IsSpace(s[j - 1])
    ensures Strip(s) == s[i..j]
  {
    LStripAt(s, i);
    RStripAt(s[i..], j - i);
    assert s[i..][..j - i] == s[i..j];
  }

  /** Stripping removes exactly the whitespace at both ends: `s` is that
      whitespace around the result, which itself neither starts nor ends with
      whitespace, so it is empty exactly when `s` is all whitespace. */
  lemma StripShape(s: string)
    ensures exists i, j :: 0 <= i <= j <= |s| && Strip(s) == s[i..j] && AllSpace(s[..i]) && AllSpace(s[j..])
    ensures Strip(s) == [] || (!IsSpace(Strip(s)[0]) && !IsSpace(Strip(s)[|Strip(s)| - 1]))
    ensures Strip(s) == [] <==> AllSpace(s)
  {
    var l := LStrip(s);
    LStripShape(s);
    var i := |s| - |l|;
    var r := RStrip(l);
    RStripShape(l);
    assert s[i..][..|r|] == s[i..i + |r|];
    assert s[i + |r|..] == l[|r|..];
    if r != [] {
      assert r[0] == l[0];
    }
    if Strip(s) == [] {
      assert l == [];
    }
  }

  /** Text with no whitespace at either end is left alone by `strip()`. */
  lemma StripTrimmed(s: string)
    requires s == [] || (!IsSpace(s[0]) && !IsSpace(s[|s| - 1]))
    ensures Strip(s) == s
  {
    if s != [] {
      assert LStrip(s) == s;
      assert RStrip(s) == s;
    }
  }

  /** Stripping after `rstrip` is just stripping. */
  lemma StripRStrip(s: string)
    ensures Strip(RStrip(s)) == Strip(s)
  {
    var r := RStrip(s);
    RStripShape(s);
    var l := LStrip(s);
    LStripShape(s);
    var i, j := |s| - |l|, |r|;
    if l == [] {
      StripShape(s);
      assert AllSpace(s[..i]) && s[..i] == s;
      StripShape(r);
    } else {
      assert s[i] == l[0];
      assert i < j;
      assert s[j - 1] == r[j - 1];
      assert Strip(s) == s[i..j] by {
        assert forall m :: 0 <= m < i ==> s[..i][m] == s[m];
        assert forall m :: j <= m < |s| ==> s[j..][m - j] == s[m];
        StripAt(s, i, j);
      }
      assert Strip(r) == s[i..j] by {
        assert forall m :: 0 <= m < i ==> s[..i][m] == r[m];
        StripAt(r, i, j);
      }
    }
  }

  /** `strip()` is idempotent. */
  lemma StripIdempotent(s: string)
    ensures Strip(Strip(s)) == Strip(s)
  {
    StripShape(s);
    StripTrimmed(Strip(s));
  }

  /** `s.startswith(p)`. */
  predicate StartsWith(s: string, p: string) {
    |p| <= |s| && s[..|p|] == p
  }

  /** `sep.join(pieces)`. */
  function Join(pieces: seq<string>, sep: char): string
    requires |pieces| >= 1
  {
    if |pieces| == 1 then pieces[0] else pieces[0] + [sep] + Join(pieces[1..], sep)
  }

  /** `s.split(sep)`. */
  /** Four pieces joined with a separator. */
  lemma JoinFour(pieces: seq<string>, sep: char)
    requires |pieces| == 4
    ensures Join(pieces, sep) == pieces[0] + [sep] + pieces[1] + [sep] + pieces[2] + [sep] + pieces[3]
  {
    var p1 := pieces[1..];
    var p2 := p1[1..];
    var p3 := p2[1..];
    assert Join(p3, sep) == pieces[3];
    assert Join(p2, sep) == pieces[2] + [sep] + pieces[3];
    assert Join(p1, sep) == pieces[1] + [sep] + (pieces[2] + [sep] + pieces[3]);
  }

  function Split(s: string, sep: char): (pieces: seq<string>)
    ensures |pieces| >= 1
  {
    if s == [] then
      [""]
    else
      var rest := Split(s[1..], sep);
      if s[0] == sep then [""] + rest else [[s[0]] + rest[0]] + rest[1..]
  }

  /** The pieces of `s.split(sep)` hold no separator, and joining them with
      the separator gives `s` back. */
  lemma {:induction false} SplitShape(s: string, sep: char)
    ensures forall i :: 0 <= i < |Split(s, sep)| ==> sep !in Split(s, sep)[i]
    ensures Join(Split(s, sep), sep) == s
  {
    if s != [] {
      SplitShape(s[1..], sep);
      var rest := Split(s[1..], sep);
      if s[0] != sep {
        assert rest == [rest[0]] + rest[1..];
      }
    }
  }

  /** The converse round trip: splitting a join of separator-free pieces gives
      the pieces back, so `Split` is the only way to cut `s` at every separator. */
  lemma {:induction false} SplitJoin(pieces: seq<string>, sep: char)
    requires |pieces| >= 1
    requires forall i :: 0 <= i < |pieces| ==> sep !in pieces[i]
    ensures Split(Join(pieces, sep), sep) == pieces
  {
    if |pieces| == 1 {
      SplitPiece(pieces[0], sep);
    } else {
      SplitJoin(pieces[1..], sep);
      SplitAfterPiece(pieces[0], sep, Join(pieces[1..], sep));
      assert pieces == [pieces[0]] + pieces[1..];
    }
  }

  lemma {:induction false} SplitPiece(p: string, sep: char)
    requires sep !in p
    ensures Split(p, sep) == [p]
  {
    if p != [] {
      SplitPiece(p[1..], sep);
      assert p == [p[0]] + p[1..];
    }
  }

  lemma {:induction false} SplitAfterPiece(p: string, sep: char, rest: string)
    requires sep !in p
    ensures Split(p + [sep] + rest, sep) == [p] + Split(rest, sep)
  {
    if p == [] {
      assert p + [sep] + rest == [sep] + rest;
      assert ([sep] + rest)[1..] == rest;
    } else {
      SplitAfterPiece(p[1..], sep, rest);
      assert (p + [sep] + rest)[1..] == p[1..] + [sep] + rest;
      assert p == [p[0]] + p[1..];
    }
  }
}
