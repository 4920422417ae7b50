/**
 * The JavaScript string built-ins the page scripts rely on:
 * `toLowerCase` (ASCII letters only), `trim`, `split(" ")` and `includes`.
 */
module JsText {

  // ---------------------------------------------------------------------------
  // toLowerCase
  // ---------------------------------------------------------------------------

  /** Lower-cases an ASCII upper-case letter and leaves every other character alone. */
  function LowerChar(c: char): char
  {
    if 'A' <= c <= 'Z' then (c as int + 32) as char else c
  }

  /** `s.toLowerCase()`, restricted to the ASCII letters. */
  function ToLower(s: string): string
  {
    seq(|s|, i requires 0 <= i < |s| => LowerChar(s[i]))
  }

  lemma ToLowerIdempotent(s: string)
    ensures ToLower(ToLower(s)) == ToLower(s)
  {
  }

  lemma ToLowerConcat(a: string, b: string)
    ensures ToLower(a + b) == ToLower(a) + ToLower(b)
  {
  }

  // ---------------------------------------------------------------------------
  // trim
  // ---------------------------------------------------------------------------

  /** The characters `trim` removes: WhiteSpace and LineTerminator of ECMA-262. */
  predicate IsWhiteSpace(c: char)
  {
    || c == '\t' || c == '\n' || c == '\U{000B}' || c == '\U{000C}' || c == '\r'
    || c == ' ' || c == '\U{00A0}' || c == '\U{1680}' || '\U{2000}' <= c <= '\U{200A}'
    || c == '\U{2028}' || c == '\U{2029}' || c == '\U{202F}' || c == '\U{205F}'
    || c == '\U{3000}' || c == '\U{FEFF}'
  }

  predicate AllWhiteSpace(s: string)
  {
    forall i | 0 <= i < |s| :: IsWhiteSpace(s[i])
  }

  lemma LowerKeepsWhiteSpace(c: char)
    ensures IsWhiteSpace(LowerChar(c)) == IsWhiteSpace(c)
    ensures IsWhiteSpace(c) ==> LowerChar(c) == c
  {
  }

  /** Drops the leading white space. */
  function TrimStart(s: string): (r: string)
    ensures |r| <= |s| && r == s[|s| - |r|..]
    ensures AllWhiteSpace(s[..|s| - |r|])
    ensures r == [] || !IsWhiteSpace(r[0])
  {
    if |s| > 0 && IsWhiteSpace(s[0]) then
      var r := TrimStart(s[1..]);
      TrimStartStep(s, r);
      r
    else
      assert s[..0] == [];
      s
  }

  /** One leading white-space character more is dropped too. */
  lemma TrimStartStep(s: string, r: string)
    requires |s| > 0 && IsWhiteSpace(s[0])
    requires |r| <= |s| - 1 && r == s[1..][|s| - 1 - |r|..]
    requires AllWhiteSpace(s[1..][..|s| - 1 - |r|])
    ensures r == s[|s| - |r|..]
    ensures AllWhiteSpace(s[..|s| - |r|])
  {
    var k := |s| - |r|;
    assert s[k..] == s[1..][k - 1..];
    assert s[..k] == [s[0]] + s[1..][..k - 1];
    AllWhiteSpaceCons(s[0], s[1..][..k - 1]);
  }

  lemma AllWhiteSpaceCons(c: char, s: string)
    requires IsWhiteSpace(c) && AllWhiteSpace(s)
    ensures AllWhiteSpace([c] + s)
  {
    forall i | 0 <= i < |[c] + s| ensures IsWhiteSpace(([c] + s)[i]) {
      if i > 0 { assert ([c] + s)[i] == s[i - 1]; }
    }
  }

  lemma AllWhiteSpaceSnoc(s: string, c: char)
    requires AllWhiteSpace(s) && IsWhiteSpace(c)
    ensures AllWhiteSpace(s + [c])
  {
    forall i | 0 <= i < |s + [c]| ensures IsWhiteSpace((s + [c])[i]) {
      if i < |s| { assert (s + [c])[i] == s[i]; }
    }
  }

  /** Drops the trailing white space. */
  function TrimEnd(s: string): (r: string)
    ensures |r| <= |s| && r == s[..|r|]
    ensures AllWhiteSpace(s[|r|..])
    ensures r == [] || !IsWhiteSpace(r[|r| - 1])
  {
    if |s| > 0 && IsWhiteSpace(s[|s| - 1]) then
      var r := TrimEnd(s[..|s| - 1]);
      TrimEndStep(s, r);
      r
    else
      assert s[|s|..] == [];
      s
  }

  /** One trailing white-space character more is dropped too. */
  lemma TrimEndStep(s: string, r: string)
    requires |s| > 0 && IsWhiteSpace(s[|s| - 1])
    requires |r| <= |s| - 1 && r == s[..|s| - 1][..|r|]
    requires AllWhiteSpace(s[..|s| - 1][|r|..])
    ensures r == s[..|r|]
    ensures AllWhiteSpace(s[|r|..])
  {
    var init := s[..|s| - 1];
    assert s[..|r|] == init[..|r|];
    assert s[|r|..] == init[|r|..] + [s[|s| - 1]];
    AllWhiteSpaceSnoc(init[|r|..], s[|s| - 1]);
  }

  /**
   * `r` sits at `lo` in `s` with nothing but white space before and after it,
   * and neither starts nor ends with white space itself.
   */
  predicate FramedBy(s: string, r: string, lo: int)
  {
    && 0 <= lo <= |s| - |r| && r == s[lo..lo + |r|]
    && AllWhiteSpace(s[..lo]) && AllWhiteSpace(s[lo + |r|..])
    && (r == [] || (!IsWhiteSpace(r[0]) && !IsWhiteSpace(r[|r| - 1])))
  }

  /** `s.trim()`: the part of `s` between its leading and its trailing white space. */
  function Trim(s: string): string
  {
    TrimEnd(TrimStart(s))
  }

  /** What `trim` returns is `s` without the white space around it. */
  lemma TrimFrames(s: string)
    ensures exists lo :: FramedBy(s, Trim(s), lo)
  {
    var t := TrimStart(s);
    var r := TrimEnd(t);
    var lo := |s| - |t|;
    assert r == s[lo..lo + |r|];
    assert s[lo + |r|..] == t[|r|..];
    assert r == [] || r[0] == t[0];
    assert FramedBy(s, r, lo);
    assert r == Trim(s);
  }

  lemma {:induction false} TrimStartOfWhiteSpace(p: string, s: string)
    requires AllWhiteSpace(p)
    ensures TrimStart(p + s) == TrimStart(s)
  {
    if p != [] {
      assert (p + s)[1..] == p[1..] + s;
      TrimStartOfWhiteSpace(p[1..], s);
    } else {
      assert p + s == s;
    }
  }

  lemma {:induction false} TrimEndOfWhiteSpace(s: string, p: string)
    requires AllWhiteSpace(p)
    ensures TrimEnd(s + p) == TrimEnd(s)
  {
    if p != [] {
      assert (s + p)[..|s + p| - 1] == s + p[..|p| - 1];
      TrimEndOfWhiteSpace(s, p[..|p| - 1]);
    } else {
      assert s + p == s;
    }
  }

  lemma {:induction false} TrimStartAppend(s: string, t: string)
    ensures TrimStart(s + t) == if TrimStart(s) == [] then TrimStart(t) else TrimStart(s) + t
  {
    if s == [] {
      assert s + t == t;
    } else if IsWhiteSpace(s[0]) {
      assert (s + t)[1..] == s[1..] + t;
      TrimStartAppend(s[1..], t);
    }
  }

  /** Surrounding white space makes no difference to `trim`. */
  lemma TrimIgnoresPadding(p: string, s: string, q: string)
    requires AllWhiteSpace(p) && AllWhiteSpace(q)
    ensures Trim(p + s + q) == Trim(s)
  {
    assert p + s + q == p + (s + q);
    TrimStartOfWhiteSpace(p, s + q);
    TrimStartAppend(s, q);
    if TrimStart(s) == [] {
      TrimStartOfWhiteSpace(q, []);
      assert q + [] == q;
    } else {
      TrimEndOfWhiteSpace(TrimStart(s), q);
    }
  }

  lemma TrimIdempotent(s: string)
    ensures Trim(Trim(s)) == Trim(s)
  {
    var t := Trim(s);
    assert TrimStart(t) == t;
    assert TrimEnd(t) == t;
  }

  lemma {:induction false} LowerTrimStartCommute(s: string)
    ensures ToLower(TrimStart(s)) == TrimStart(ToLower(s))
  {
    if |s| > 0 {
      LowerKeepsWhiteSpace(s[0]);
      if IsWhiteSpace(s[0]) {
        assert ToLower(s)[1..] == ToLower(s[1..]);
        LowerTrimStartCommute(s[1..]);
      }
    }
  }

  lemma {:induction false} LowerTrimEndCommute(s: string)
    ensures ToLower(TrimEnd(s)) == TrimEnd(ToLower(s))
    decreases |s|
  {
    if |s| > 0 {
      LowerKeepsWhiteSpace(s[|s| - 1]);
      if IsWhiteSpace(s[|s| - 1]) {
        assert ToLower(s)[..|s| - 1] == ToLower(s[..|s| - 1]);
        LowerTrimEndCommute(s[..|s| - 1]);
      }
    }
  }

  lemma LowerTrimCommute(s: string)
    ensures ToLower(Trim(s)) == Trim(ToLower(s))
  {
    LowerTrimStartCommute(s);
    LowerTrimEndCommute(TrimStart(s));
  }

  // ---------------------------------------------------------------------------
  // The normal form both scripts compare questions in
  // ---------------------------------------------------------------------------

  /** `s.toLowerCase().trim()`. */
  function Norm(s: string): string
  {
    Trim(ToLower(s))
  }

  /** Normalising twice is normalising once. */
  lemma NormIdempotent(s: string)
    ensures Norm(Norm(s)) == Norm(s)
  {
    LowerTrimCommute(ToLower(s));
    ToLowerIdempotent(s);
    TrimIdempotent(ToLower(s));
  }

  /** Trimming before normalising changes nothing. */
  lemma NormOfTrim(s: string)
    ensures Norm(Trim(s)) == Norm(s)
  {
    LowerTrimCommute(s);
    TrimIdempotent(ToLower(s));
  }

  /** White space around a string is invisible to the normal form. */
  lemma NormIgnoresPadding(p: string, s: string, q: string)
    requires AllWhiteSpace(p) && AllWhiteSpace(q)
    ensures Norm(p + s + q) == Norm(s)
  {
    ToLowerConcat(p + s, q);
    ToLowerConcat(p, s);
    forall i | 0 <= i < |p| ensures ToLower(p)[i] == p[i] { LowerKeepsWhiteSpace(p[i]); }
    forall i | 0 <= i < |q| ensures ToLower(q)[i] == q[i] { LowerKeepsWhiteSpace(q[i]); }
    assert ToLower(p) == p && ToLower(q) == q;
    TrimIgnoresPadding(p, ToLower(s), q);
  }

  // ---------------------------------------------------------------------------
  // split(" ")
  // ---------------------------------------------------------------------------

  /** Glues tokens back together with single spaces: `ws.join(" ")`. */
  function Join(ws: seq<string>): string
    requires |ws| >= 1
  {
    if |ws| == 1 then ws[0] else ws[0] + " " + Join(ws[1..])
  }

  lemma JoinExtendHead(c: char, ws: seq<string>)
    requires |ws| >= 1
    ensures Join([[c] + ws[0]] + ws[1..]) == [c] + Join(ws)
  {
    var vs := [[c] + ws[0]] + ws[1..];
    if |ws| > 1 {
      assert vs[1..] == ws[1..];
      var t := Join(ws[1..]);
      calc {
        Join(vs);
        vs[0] + " " + Join(vs[1..]);
        ([c] + ws[0]) + " " + t;
        { SeqAssoc3([c], ws[0], " ", t); }
        [c] + (ws[0] + " " + t);
        [c] + Join(ws);
      }
    }
  }

  lemma SeqAssoc3(a: string, b: string, c: string, d: string)
    ensures (a + b) + c + d == a + (b + c + d)
  {
  }

  /**
   * `s.split(" ")`: the pieces between single spaces, so that `""` gives `[""]` and
   * two spaces in a row give an empty piece; there is always at least one piece.
   */
  function Split(s: string): (r: seq<string>)
    ensures |r| >= 1
    ensures forall i | 0 <= i < |r| :: ' ' !in r[i]
    ensures Join(r) == s
  {
    if s == [] then [""]
    else
      var rest := Split(s[1..]);
      if s[0] == ' ' then
        assert [s[0]] + s[1..] == s;
        [""] + rest
      else
        JoinExtendHead(s[0], rest);
        assert [s[0]] + s[1..] == s;
        [[s[0]] + rest[0]] + rest[1..]
  }

  lemma {:induction false} SplitWord(w: string, t: string)
    requires ' ' !in w
    ensures Split(w + " " + t) == [w] + Split(t)
  {
    if w == [] {
      assert w + " " + t == [' '] + t;
      assert (w + " " + t)[1..] == t;
    } else {
      var s := w + " " + t;
      assert s[1..] == w[1..] + " " + t;
      SplitWord(w[1..], t);
      assert [w[0]] + w[1..] == w;
    }
  }

  lemma {:induction false} SplitNoSpace(w: string)
    requires ' ' !in w
    ensures Split(w) == [w]
  {
    if w != [] {
      SplitNoSpace(w[1..]);
      assert [w[0]] + w[1..] == w;
    }
  }

  /** Splitting a join of space-free tokens gives back exactly those tokens. */
  lemma {:induction false} SplitJoin(ws: seq<string>)
    requires |ws| >= 1
    requires forall i | 0 <= i < |ws| :: ' ' !in ws[i]
    ensures Split(Join(ws)) == ws
  {
    if |ws| == 1 {
      SplitNoSpace(ws[0]);
    } else {
      SplitJoin(ws[1..]);
      SplitWord(ws[0], Join(ws[1..]));
    }
  }

  // ---------------------------------------------------------------------------
  // includes
  // ---------------------------------------------------------------------------

  /** `w` stands in `s` starting at position `i`. */
  predicate OccursAt(s: string, w: string, i: int)
  {
    0 <= i && i + |w| <= |s| && s[i..i + |w|] == w
  }

  /** `s.includes(w)`: a prefix test at each position of `s` in turn. */
  predicate Includes(s: string, w: string)
  {
    w <= s || (|s| > 0 && Includes(s[1..], w))
  }

  /** `includes` holds exactly when `w` occurs somewhere in `s`. */
  lemma {:induction false} IncludesIff(s: string, w: string)
    ensures Includes(s, w) <==> exists i :: OccursAt(s, w, i)
  {
    if w <= s {
      assert OccursAt(s, w, 0);
    } else if |s| > 0 {
      IncludesIff(s[1..], w);
      if Includes(s[1..], w) {
        var i :| OccursAt(s[1..], w, i);
        assert s[1..][i..i + |w|] == s[i + 1..i + 1 + |w|];
        assert OccursAt(s, w, i + 1);
      }
      if i :| OccursAt(s, w, i) {
        assert i != 0;
        assert s[1..][i - 1..i - 1 + |w|] == s[i..i + |w|];
        assert OccursAt(s[1..], w, i - 1);
      }
    }
  }

  /** The empty string is included in every string. */
  lemma IncludesEmpty(s: string)
    ensures Includes(s, "")
  {
  }

  /** Every token that `split` produces is included in the string it came from. */
  lemma {:induction false} JoinIncludesTokens(ws: seq<string>, k: nat)
    requires |ws| >= 1 && k < |ws|
    ensures Includes(Join(ws), ws[k])
  {
    var s := Join(ws);
    if |ws| == 1 {
      assert ws[k] <= s;
    } else if k == 0 {
      assert ws[0] <= s;
    } else {
      JoinIncludesTokens(ws[1..], k - 1);
      IncludesIff(Join(ws[1..]), ws[k]);
      var i :| OccursAt(Join(ws[1..]), ws[k], i);
      var off := |ws[0]| + 1;
      assert s == ws[0] + " " + Join(ws[1..]);
      assert s[off + i..off + i + |ws[k]|] == Join(ws[1..])[i..i + |ws[k]|];
      assert OccursAt(s, ws[k], off + i);
      IncludesIff(s, ws[k]);
    }
  }
}
