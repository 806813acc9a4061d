/**
 * cleaner.py: the display cleaners for business names, addresses and agent
 * names, the copying clean of a whole frame, and the key used for exact
 * matching against existing records.
 */
module Cleaner {
  import opened PyStr
  import opened Records

  /** `pd.isna(x) or not x`: the value is missing or the empty string. */
  predicate Missing(x: Option<string>) {
    x.None? || x.value == []
  }

  // ---------------------------------------------------------------------
  // Comma spacing: re.sub(r'\s*,\s*', ', ', s)
  // ---------------------------------------------------------------------

  /**
   * `re.sub(r'\s*,\s*', ', ', s)`: scanning from the left, a run of
   * whitespace, a comma and a run of whitespace is replaced by a comma and
   * one space; any other character is kept and the scan moves on by one.
   */
  function CommaSpacing(s: string): (r: string)
    ensures r == [] <==> s == []
    decreases |s|
  {
    if s == [] then []
    else
      var t := SkipSpace(s);
      if t != [] && t[0] == ',' then ", " + CommaSpacing(SkipSpace(t[1..]))
      else [s[0]] + CommaSpacing(s[1..])
  }

  /**
   * The shape comma spacing gives: every comma is followed by exactly one
   * space and then a character that is not whitespace (or the end), and the
   * only whitespace directly before a comma is the space of an earlier ", ".
   */
  predicate CommasSpaced(r: string) {
    && (forall i :: 0 <= i < |r| && r[i] == ',' ==>
          i + 1 < |r| && r[i + 1] == ' ' && (i + 2 == |r| || !IsSpace(r[i + 2])))
    && (forall i :: 0 < i < |r| && r[i] == ',' && IsSpace(r[i - 1]) ==> i >= 2 && r[i - 2] == ',')
  }

  /** Text that starts with a non-space character keeps that first character. */
  lemma CommaSpacingHead(u: string)
    requires u != [] && !IsSpace(u[0])
    ensures CommaSpacing(u) != [] && CommaSpacing(u)[0] == u[0]
  {
    SkipNoSpace(u);
  }

  /** The result starts with a comma exactly when the text does after its leading whitespace. */
  lemma CommaSpacingComma(u: string)
    requires u != []
    ensures CommaSpacing(u) != []
    ensures CommaSpacing(u)[0] == ',' <==> SkipSpace(u) != [] && SkipSpace(u)[0] == ','
  {
    if u[0] == ',' {
      SkipNoSpace(u);
    }
  }

  /** Comma spacing changes whitespace only: every other character is kept, in order. */
  lemma {:induction false} CommaSpacingContent(s: string)
    ensures NonSpace(CommaSpacing(s)) == NonSpace(s)
    decreases |s|
  {
    if s != [] {
      var t := SkipSpace(s);
      NonSpaceSkip(s);
      if t != [] && t[0] == ',' {
        var u := SkipSpace(t[1..]);
        CommaSpacingContent(u);
        NonSpaceSkip(t[1..]);
        CommaContent(t, CommaSpacing(u));
      } else {
        CommaSpacingContent(s[1..]);
        CharContent(s, CommaSpacing(s[1..]));
      }
    }
  }

  /** What a comma and a space in front of `R` keep is the comma and what `R` keeps. */
  lemma CommaContent(t: string, R: string)
    requires t != [] && t[0] == ','
    requires NonSpace(R) == NonSpace(t[1..])
    ensures NonSpace(", " + R) == NonSpace(t)
  {
    var r := ", " + R;
    assert r[0] == ',' && r[1..][0] == ' ' && r[1..][1..] == R;
  }

  /** The first character of `s` in front of `R` keeps what `s` keeps. */
  lemma CharContent(s: string, R: string)
    requires s != [] && NonSpace(R) == NonSpace(s[1..])
    ensures NonSpace([s[0]] + R) == NonSpace(s)
  {
    assert ([s[0]] + R)[1..] == R;
  }

  /** A comma and a space in front of comma-spaced text that does not start with whitespace. */
  lemma CommasSpacedCons(R: string)
    requires CommasSpaced(R) && (R == [] || !IsSpace(R[0]))
    ensures CommasSpaced(", " + R)
  {
    var r := ", " + R;
    forall i | 2 <= i < |r| ensures r[i] == R[i - 2] { }
  }

  /** A character other than a comma in front of comma-spaced text, unless it is whitespace before a comma. */
  lemma CommasSpacedChar(c: char, R: string)
    requires CommasSpaced(R) && c != ','
    requires IsSpace(c) && R != [] ==> R[0] != ','
    ensures CommasSpaced([c] + R)
  {
    var r := [c] + R;
    forall i | 1 <= i < |r| ensures r[i] == R[i - 1] { }
  }

  lemma {:induction false} CommaSpacingSpaced(s: string)
    ensures CommasSpaced(CommaSpacing(s))
    decreases |s|
  {
    if s != [] {
      var t := SkipSpace(s);
      if t != [] && t[0] == ',' {
        var u := SkipSpace(t[1..]);
        CommaSpacingSpaced(u);
        if u != [] {
          CommaSpacingHead(u);
        }
        CommasSpacedCons(CommaSpacing(u));
      } else {
        CommaSpacingSpaced(s[1..]);
        if s[0] == ',' {
          SkipNoSpace(s);
        }
        if IsSpace(s[0]) && s[1..] != [] {
          CommaSpacingComma(s[1..]);
        }
        CommasSpacedChar(s[0], CommaSpacing(s[1..]));
      }
    }
  }

  /** Text ending with a comma ends with the space comma spacing puts after it. */
  lemma {:induction false} CommaSpacingTrailing(s: string)
    requires s != [] && s[|s| - 1] == ','
    ensures EndsInSpace(CommaSpacing(s))
    decreases |s|
  {
    var head, rest := TrailingStep(s);
    if rest == [] {
      assert CommaSpacing(s) == ", ";
    } else {
      CommaSpacingTrailing(rest);
      LastAfter(head, CommaSpacing(rest));
    }
  }

  /**
   * One step of comma spacing on text that ends with a comma: the output so
   * far and the shorter rest, which is empty right after the final comma and
   * otherwise still ends with that comma.
   */
  lemma TrailingStep(s: string) returns (head: string, rest: string)
    requires s != [] && s[|s| - 1] == ','
    ensures CommaSpacing(s) == head + CommaSpacing(rest) && |rest| < |s|
    ensures rest == [] ==> head == ", "
    ensures rest != [] ==> rest[|rest| - 1] == ','
  {
    var t := SkipSpace(s);
    EndsWithCommaSkip(s);
    if t[0] == ',' {
      rest := SkipSpace(t[1..]);
      CommaSpacingAtComma(s);
      head := ", ";
      if rest != [] {
        EndsWithCommaSkip(t[1..]);
      }
    } else {
      CommaSpacingAtChar(s);
      head, rest := [s[0]], s[1..];
    }
  }

  /** Skipping leading whitespace keeps a final comma. */
  lemma EndsWithCommaSkip(s: string)
    requires s != [] && s[|s| - 1] == ','
    ensures SkipSpace(s) != [] && SkipSpace(s)[|SkipSpace(s)| - 1] == ','
  {
    var t := SkipSpace(s);
    assert t != [] ==> t[|t| - 1] == s[|s| - 1];
  }

  lemma CommaSpacingAtComma(s: string)
    requires s != [] && SkipSpace(s) != [] && SkipSpace(s)[0] == ','
    ensures CommaSpacing(s) == ", " + CommaSpacing(SkipSpace(SkipSpace(s)[1..]))
  {
  }

  lemma CommaSpacingAtChar(s: string)
    requires s != [] && SkipSpace(s) != [] && SkipSpace(s)[0] != ',' && s[|s| - 1] == ','
    ensures CommaSpacing(s) == [s[0]] + CommaSpacing(s[1..])
    ensures |s| > 1 && s[1..][|s| - 2] == ','
  {
    SkipFromNonSpace(s);
  }

  lemma SkipFromNonSpace(s: string)
    ensures s != [] && !IsSpace(s[0]) ==> SkipSpace(s) == s
  {
  }

  /** The last character is a space. */
  predicate EndsInSpace(r: string) {
    r != [] && r[|r| - 1] == ' '
  }

  lemma LastAfter(p: string, R: string)
    requires EndsInSpace(R)
    ensures EndsInSpace(p + R)
  {
  }

  /**
   * Two commas in a row each get their own space, so the second comma ends up
   * right after a space: ",," becomes ", , ".
   */
  lemma AdjacentCommas(s: string)
    requires |s| >= 2 && s[0] == ',' && s[1] == ','
    ensures |CommaSpacing(s)| >= 3
    ensures CommaSpacing(s)[..3] == ", ,"
  {
    var t := AfterLeadingComma(s);
    CommaSpacingHead(t);
    CommaThenComma(CommaSpacing(s), CommaSpacing(t));
  }

  lemma AfterLeadingComma(s: string) returns (t: string)
    requires |s| >= 2 && s[0] == ',' && s[1] == ','
    ensures t != [] && t[0] == ','
    ensures CommaSpacing(s) == ", " + CommaSpacing(t)
  {
    SkipNoSpace(s);
    CommaSpacingAtComma(s);
    t := s[1..];
    SkipNoSpace(t);
  }

  lemma CommaThenComma(r: string, x: string)
    requires r == ", " + x && x != [] && x[0] == ','
    ensures |r| >= 3 && r[..3] == ", ,"
  {
  }

  /** Single plain spaces stay single plain spaces in every suffix. */
  lemma SingleSpacedSuffix(s: string, k: nat)
    requires k <= |s| && NoDoubleSpace(s) && OnlyPlainSpaces(s)
    ensures NoDoubleSpace(s[k..]) && OnlyPlainSpaces(s[k..])
  {
    var u := s[k..];
    assert forall i :: 0 <= i < |u| ==> u[i] == s[k + i];
  }

  lemma SingleSpacedCons(c: char, R: string)
    requires NoDoubleSpace(R) && OnlyPlainSpaces(R)
    requires IsSpace(c) ==> c == ' ' && (R == [] || !IsSpace(R[0]))
    ensures NoDoubleSpace([c] + R) && OnlyPlainSpaces([c] + R)
  {
    var r := [c] + R;
    assert forall i :: 1 <= i < |r| ==> r[i] == R[i - 1];
  }

  /** Comma spacing keeps text single-spaced with plain spaces. */
  lemma {:induction false} CommaSpacingSingle(s: string)
    requires NoDoubleSpace(s) && OnlyPlainSpaces(s)
    ensures NoDoubleSpace(CommaSpacing(s)) && OnlyPlainSpaces(CommaSpacing(s))
    decreases |s|
  {
    if s != [] {
      var t := SkipSpace(s);
      if t != [] && t[0] == ',' {
        var u := SkipSpace(t[1..]);
        assert u == s[|s| - |u|..];
        SingleSpacedSuffix(s, |s| - |u|);
        CommaSpacingSingle(u);
        SingleAfterComma(u);
      } else {
        SingleSpacedSuffix(s, 1);
        CommaSpacingSingle(s[1..]);
        SingleAfterChar(s);
      }
    }
  }

  lemma SingleAfterComma(u: string)
    requires u == [] || !IsSpace(u[0])
    requires NoDoubleSpace(CommaSpacing(u)) && OnlyPlainSpaces(CommaSpacing(u))
    ensures NoDoubleSpace(", " + CommaSpacing(u)) && OnlyPlainSpaces(", " + CommaSpacing(u))
  {
    if u != [] {
      CommaSpacingHead(u);
    }
    SingleAfterCommaSpace(CommaSpacing(u));
  }

  lemma SingleAfterCommaSpace(R: string)
    requires R == [] || !IsSpace(R[0])
    requires NoDoubleSpace(R) && OnlyPlainSpaces(R)
    ensures NoDoubleSpace(", " + R) && OnlyPlainSpaces(", " + R)
  {
    var r := ", " + R;
    assert forall i :: 2 <= i < |r| ==> r[i] == R[i - 2];
  }

  lemma SingleAfterChar(s: string)
    requires s != [] && NoDoubleSpace(s) && OnlyPlainSpaces(s)
    requires NoDoubleSpace(CommaSpacing(s[1..])) && OnlyPlainSpaces(CommaSpacing(s[1..]))
    ensures NoDoubleSpace([s[0]] + CommaSpacing(s[1..])) && OnlyPlainSpaces([s[0]] + CommaSpacing(s[1..]))
  {
    if |s| > 1 && IsSpace(s[0]) {
      CommaSpacingHead(s[1..]);
    }
    SingleSpacedCons(s[0], CommaSpacing(s[1..]));
  }

  // ---------------------------------------------------------------------
  // Comma spacing read as a split and a join
  // ---------------------------------------------------------------------

  /**
   * `', '.join(parts)` after stripping the whitespace next to each comma:
   * the end of every part but the last and the start of every part but the
   * first. `first` is the first part, whose start was already handled.
   */
  function JoinAtCommas(first: string, rest: seq<string>): string
    decreases |rest|
  {
    if rest == [] then first
    else RStrip(first) + ", " + JoinAtCommas(SkipSpace(rest[0]), rest[1..])
  }

  /**
   * Comma spacing is `s.split(',')` with the whitespace around every comma
   * removed, joined again by ", ": a reading of the substitution that does
   * not scan character by character.
   */
  lemma {:induction false} CommaSpacingBySplit(s: string)
    ensures CommaSpacing(s) == JoinAtCommas(SplitOn(s, ',')[0], SplitOn(s, ',')[1..])
    decreases |s|
  {
    if ',' !in s {
      CommaSpacingNoComma(s);
    } else {
      var i := IndexOf(s, ',');
      var q := s[i + 1..];
      CommaSpacingAtFirstComma(s, i);
      CommaSpacingBySplit(SkipSpace(q));
      SplitOnSkip(q);
      SplitOnAt(s, i);
    }
  }

  /** Text without a comma is left as it is. */
  lemma {:induction false} CommaSpacingNoComma(s: string)
    requires ',' !in s
    ensures CommaSpacing(s) == s
    decreases |s|
  {
    if s != [] {
      var t := SkipSpace(s);
      assert t != [] ==> t[0] == s[|s| - |t|];
      CommaSpacingAtOther(s);
      assert ',' !in s[1..] by { assert forall j :: 0 <= j < |s| - 1 ==> s[1..][j] == s[j + 1]; }
      CommaSpacingNoComma(s[1..]);
    }
  }

  lemma CommaSpacingAtOther(s: string)
    requires s != [] && (SkipSpace(s) == [] || SkipSpace(s)[0] != ',')
    ensures CommaSpacing(s) == [s[0]] + CommaSpacing(s[1..])
  {
  }

  /**
   * At the first comma, the text before it loses its trailing whitespace and
   * the text after it its leading whitespace.
   */
  lemma CommaSpacingAtFirstComma(s: string, i: nat)
    requires i < |s| && s[i] == ',' && ',' !in s[..i]
    ensures CommaSpacing(s) == RStrip(s[..i]) + ", " + CommaSpacing(SkipSpace(s[i + 1..]))
  {
    assert s == s[..i] + [','] + s[i + 1..];
    CommaAround(s[..i], s[i + 1..]);
  }

  /** Comma spacing around a comma that only `pre` precedes. */
  lemma {:induction false} CommaAround(pre: string, post: string)
    requires ',' !in pre
    ensures CommaSpacing(pre + [','] + post) == RStrip(pre) + ", " + CommaSpacing(SkipSpace(post))
    decreases |pre|, 1
  {
    if AllSpace(pre) {
      CommaAroundSpaces(pre, post);
    } else {
      CommaAroundKept(pre, post);
    }
  }

  /** `CommaAround` when `pre` is all whitespace. */
  lemma CommaAroundSpaces(pre: string, post: string)
    requires AllSpace(pre)
    ensures CommaSpacing(pre + [','] + post) == RStrip(pre) + ", " + CommaSpacing(SkipSpace(post))
  {
    SpacesBeforeComma(pre, post);
    RStripAllSpace(pre);
    EmptyFront(CommaSpacing(pre + [','] + post), RStrip(pre), CommaSpacing(SkipSpace(post)));
  }

  lemma EmptyFront(cs: string, r: string, t: string)
    requires cs == ", " + t && r == []
    ensures cs == r + ", " + t
  {
  }

  /** The step of `CommaAround` when `pre` holds a character that is not whitespace. */
  lemma {:induction false} CommaAroundKept(pre: string, post: string)
    requires ',' !in pre && !AllSpace(pre)
    ensures CommaSpacing(pre + [','] + post) == RStrip(pre) + ", " + CommaSpacing(SkipSpace(post))
    decreases |pre|, 0
  {
    KeptBeforeComma(pre, post);
    CommaAround(pre[1..], post);
    RStripCons(pre);
    CommaStep(CommaSpacing(pre + [','] + post), CommaSpacing(pre[1..] + [','] + post), pre[0],
              RStrip(pre[1..]), RStrip(pre), CommaSpacing(SkipSpace(post)));
  }

  /** Whitespace before the comma disappears with it. */
  lemma SpacesBeforeComma(pre: string, post: string)
    requires AllSpace(pre)
    ensures CommaSpacing(pre + [','] + post) == ", " + CommaSpacing(SkipSpace(post))
  {
    var s := pre + [','] + post;
    var i := |pre|;
    assert s[..i] == pre && s[i] == ',' && s[i + 1..] == post;
    CommaAfterSpaces(s, i);
  }

  /** A character that is not whitespace before the comma is kept, and the scan moves on. */
  lemma KeptBeforeComma(pre: string, post: string)
    requires ',' !in pre && !AllSpace(pre)
    ensures pre != [] && ',' !in pre[1..]
    ensures CommaSpacing(pre + [','] + post) == [pre[0]] + CommaSpacing(pre[1..] + [','] + post)
  {
    CommaParts(pre, post);
    CharBeforeComma(pre + [','] + post, |pre|);
    NotInTail(pre, ',');
  }

  /** The pieces of `pre + [','] + post`, read back by position. */
  lemma CommaParts(pre: string, post: string)
    ensures var s := pre + [','] + post; s[..|pre|] == pre && s[|pre|] == ','
    ensures pre != [] ==> (pre + [','] + post)[1..] == pre[1..] + [','] + post
  {
  }

  lemma NotInTail(x: string, c: char)
    requires x != [] && c !in x
    ensures c !in x[1..]
  {
    assert forall j :: 0 <= j < |x| - 1 ==> x[1..][j] == x[j + 1];
  }

  /** One kept character in front of the text before the first comma. */
  lemma CommaStep(cs: string, cs1: string, c: char, ra: string, rca: string, t: string)
    requires cs == [c] + cs1 && cs1 == ra + ", " + t && rca == [c] + ra
    ensures cs == rca + ", " + t
  {
  }

  /** A comma after nothing but whitespace. */
  lemma CommaAfterSpaces(s: string, i: nat)
    requires i < |s| && s[i] == ',' && AllSpace(s[..i])
    ensures CommaSpacing(s) == ", " + CommaSpacing(SkipSpace(s[i + 1..]))
  {
    assert s == s[..i] + s[i..];
    SkipSpacePrefix(s[..i], s[i..]);
    SkipNoSpace(s[i..]);
    assert s[i..][1..] == s[i + 1..];
    CommaSpacingAtComma(s);
  }

  /** Before the first comma there is a character that is not whitespace: it is kept. */
  lemma CharBeforeComma(s: string, i: nat)
    requires i < |s| && s[i] == ',' && ',' !in s[..i] && !AllSpace(s[..i])
    ensures i > 0 && CommaSpacing(s) == [s[0]] + CommaSpacing(s[1..])
  {
    var t := SkipSpace(s);
    var k := |s| - |t|;
    var j :| 0 <= j < i && !IsSpace(s[..i][j]);
    assert s[j] == s[..i][j];
    assert k <= j;
    assert t[0] == s[k] == s[..i][k];
    CommaSpacingAtOther(s);
  }

  /** `s.split(',')` at the first comma. */
  lemma SplitOnAt(s: string, i: nat)
    requires i < |s| && s[i] == ',' && ',' !in s[..i]
    ensures SplitOn(s, ',') == [s[..i]] + SplitOn(s[i + 1..], ',')
  {
    IndexOfAt(s, ',', i);
  }

  lemma NotInSkip(x: string, c: char)
    requires c !in x
    ensures c !in SkipSpace(x)
  {
    NotInDrop(x, |x| - |SkipSpace(x)|, c);
  }

  lemma NotInDrop(x: string, k: nat, c: char)
    requires k <= |x| && c !in x
    ensures c !in x[k..]
  {
    assert forall j :: 0 <= j < |x| - k ==> x[k..][j] == x[k + j];
  }

  /** `(t + r).split(',')` when `t` has no comma and `r` starts with one. */
  lemma SplitOnCons(t: string, r: string)
    requires ',' !in t && r != [] && r[0] == ','
    ensures SplitOn(t + r, ',') == [t] + SplitOn(r[1..], ',')
  {
    var u := t + r;
    assert u[..|t|] == t && u[|t|] == r[0] && u[|t| + 1..] == r[1..];
    SplitOnAt(u, |t|);
  }

  /**
   * `lstrip` moves no comma: the parts of the stripped text are the parts of
   * the text with the first one stripped.
   */
  lemma SplitOnSkip(q: string)
    ensures SplitOn(SkipSpace(q), ',') == [SkipSpace(SplitOn(q, ',')[0])] + SplitOn(q, ',')[1..]
  {
    if ',' !in q {
      var u := SkipSpace(q);
      assert forall j :: 0 <= j < |u| ==> u[j] == q[|q| - |u| + j];
    } else {
      var i := IndexOf(q, ',');
      SplitOnAt(q, i);
      if AllSpace(q[..i]) {
        SplitOnSkipSpaces(q, i);
      } else {
        SplitOnSkipWord(q, i);
      }
    }
  }

  lemma SplitOnSkipSpaces(q: string, i: nat)
    requires i < |q| && q[i] == ',' && AllSpace(q[..i])
    ensures SplitOn(SkipSpace(q), ',') == [SkipSpace(q[..i])] + SplitOn(q[i + 1..], ',')
  {
    TakeDrop(q, i);
    SliceStep(q, i);
    SkipSpacePrefix(q[..i], q[i..]);
    SkipNoSpace(q[i..]);
    SkipAllSpace(q[..i]);
    SplitOnAt(q[i..], 0);
    EmptyTake(q[i..]);
  }

  lemma TakeDrop(q: string, i: nat)
    requires i <= |q|
    ensures q == q[..i] + q[i..]
  {
  }

  lemma EmptyTake(r: string)
    ensures r[..0] == []
  {
  }

  lemma SplitOnSkipWord(q: string, i: nat)
    requires i < |q| && q[i] == ',' && ',' !in q[..i] && !AllSpace(q[..i])
    ensures SplitOn(SkipSpace(q), ',') == [SkipSpace(q[..i])] + SplitOn(q[i + 1..], ',')
  {
    var p := q[..i];
    var r := q[i..];
    assert q == p + r && r[0] == ',' && r[1..] == q[i + 1..];
    SkipSpaceAppend(p, r);
    NotInSkip(p, ',');
    SplitOnCons(SkipSpace(p), r);
  }

  // ---------------------------------------------------------------------
  // Business names: clean_business_name
  // ---------------------------------------------------------------------

  /** Two strings of the same length that differ at most in the case of letters. */
  predicate SameNonLetters(x: string, y: string) {
    |x| == |y| && forall i :: 0 <= i < |x| ==> (IsLetter(x[i]) <==> IsLetter(y[i])) && (!IsLetter(x[i]) ==> x[i] == y[i])
  }

  /** Changing the case of letters keeps every property that only looks at whitespace and commas. */
  lemma SameNonLettersSpacing(x: string, y: string)
    requires SameNonLetters(x, y)
    ensures NoDoubleSpace(x) ==> NoDoubleSpace(y)
    ensures OnlyPlainSpaces(x) ==> OnlyPlainSpaces(y)
    ensures CommasSpaced(x) ==> CommasSpaced(y)
    ensures x != [] && !IsSpace(x[0]) ==> !IsSpace(y[0])
  {
    assert forall i :: 0 <= i < |x| ==> (IsSpace(x[i]) <==> IsSpace(y[i])) && (x[i] == ' ' <==> y[i] == ' ') && (x[i] == ',' <==> y[i] == ',');
  }

  /** The text a display cleaner title-cases: stripped, single-spaced and comma-spaced. */
  function SpacedText(v: string): string {
    CommaSpacing(CollapseSpace(Strip(v)))
  }

  /** `clean_business_name` */
  function CleanBusinessName(name: Option<string>): (r: string)
    ensures Missing(name) ==> r == []
    ensures IsTitleCased(r)
  {
    if Missing(name) then [] else Title(SpacedText(name.value))
  }

  /**
   * Before title-casing, the spacing of a display value: no whitespace in
   * front, single plain spaces, commas followed by one space, and empty
   * exactly when the value was all whitespace.
   */
  lemma SpacedTextShape(v: string)
    ensures var t := SpacedText(v);
      && NoDoubleSpace(t) && OnlyPlainSpaces(t) && CommasSpaced(t)
      && (t == [] <==> AllSpace(v))
      && (t != [] ==> !IsSpace(t[0]))
  {
    var c := CollapseSpace(Strip(v));
    CommaSpacingSingle(c);
    CommaSpacingSpaced(c);
    if c != [] {
      CommaSpacingHead(c);
    }
  }

  /** Spacing the text keeps its non-whitespace characters. */
  lemma SpacedTextContent(v: string)
    ensures NonSpace(SpacedText(v)) == NonSpace(v)
  {
    var s := Strip(v);
    NonSpaceStrip(v);
    NonSpaceCollapse(s);
    CommaSpacingContent(CollapseSpace(s));
  }

  /** Title-casing keeps the non-whitespace characters up to case. */
  lemma TitleContent(t: string)
    ensures NonSpace(Lower(Title(t))) == NonSpace(Lower(t))
  {
    TitleLower(t);
  }

  /**
   * A present business name comes out with the same characters apart from
   * whitespace (up to case), no whitespace in front, single plain spaces,
   * every comma followed by one space, and empty only when it was blank.
   */
  lemma CleanBusinessNameShape(name: Option<string>)
    requires !Missing(name)
    ensures var r := CleanBusinessName(name);
      && Lower(NonSpace(r)) == Lower(NonSpace(name.value))
      && NoDoubleSpace(r) && OnlyPlainSpaces(r) && CommasSpaced(r)
      && (r == [] <==> AllSpace(name.value))
      && (r != [] ==> !IsSpace(r[0]))
  {
    var v := name.value;
    var t := SpacedText(v);
    var r := Title(t);
    SpacedTextShape(v);
    assert SameNonLetters(t, r);
    SameNonLettersSpacing(t, r);
    SpacedTextContent(v);
    TitleContent(t);
    NonSpaceLower(r);
    NonSpaceLower(t);
  }

  /**
   * A business name without a comma keeps its words up to case: comma
   * spacing has nothing to do and the rest changes only whitespace and case.
   */
  lemma CommaFreeNameKeepsWords(name: Option<string>)
    requires !Missing(name) && ',' !in name.value
    ensures Split(Lower(CleanBusinessName(name))) == Split(Lower(name.value))
  {
    var v := name.value;
    var c := CollapseSpace(Strip(v));
    NonSpaceStrip(v);
    NonSpaceCollapse(Strip(v));
    NonSpaceHas(c, ',');
    NonSpaceHas(v, ',');
    CommaSpacingNoComma(c);
    SpacingKeepsWords(v);
  }

  /** A business name whose last non-whitespace character is a comma comes out ending with a space. */
  lemma TrailingCommaSpace(name: Option<string>)
    requires !Missing(name)
    requires var v := Strip(name.value); v != [] && v[|v| - 1] == ','
    ensures EndsInSpace(CleanBusinessName(name))
  {
    var v := Strip(name.value);
    CollapseKeepsLast(v);
    CommaSpacingTrailing(CollapseSpace(v));
    TitleEndsInSpace(CommaSpacing(CollapseSpace(v)));
  }

  /** Title case keeps a final space. */
  lemma TitleEndsInSpace(t: string)
    requires EndsInSpace(t)
    ensures EndsInSpace(Title(t))
  {
    assert !IsLetter(t[|t| - 1]);
  }

  // ---------------------------------------------------------------------
  // Addresses: clean_address
  // ---------------------------------------------------------------------

  /** The length of a match of `,?\s*Usa\s*` at the start of `s`, if there is one. */
  function UsaMatch(s: string): (n: Option<nat>)
    ensures n.Some? ==> 3 <= n.value <= |s|
  {
    var a := if s != [] && s[0] == ',' then s[1..] else s;
    var b := SkipSpace(a);
    if StartsWith(b, "Usa") then Some(|s| - |SkipSpace(b[3..])|) else None
  }

  /** The pattern `,?\s*Usa\s*` matches nowhere in `s`. */
  predicate NoUsa(s: string) {
    forall i {:trigger UsaMatch(s[i..])} :: 0 <= i < |s| ==> UsaMatch(s[i..]).None?
  }

  /** `re.sub(r',?\s*Usa\s*', '', s)`: every match, scanning from the left, is deleted. */
  function RemoveUsa(s: string): (r: string)
    ensures |r| <= |s|
    decreases |s|
  {
    if s == [] then []
    else match UsaMatch(s)
      case Some(n) => RemoveUsa(s[n..])
      case None => [s[0]] + RemoveUsa(s[1..])
  }

  /** Deleting matches never lengthens the text, and shortens it as soon as there is a match. */
  lemma {:induction false} RemoveUsaShrinks(s: string)
    ensures |RemoveUsa(s)| <= |s|
    ensures forall i :: 0 <= i < |s| && UsaMatch(s[i..]).Some? ==> |RemoveUsa(s)| < |s|
    decreases |s|
  {
    if s != [] {
      match UsaMatch(s)
      case Some(n) =>
        RemoveUsaShrinks(s[n..]);
      case None =>
        RemoveUsaShrinks(s[1..]);
        forall i | 1 <= i < |s| ensures s[i..] == s[1..][i - 1..] { }
    }
  }

  /** Text in which the pattern matches nowhere is left as it is. */
  lemma {:induction false} RemoveUsaNone(s: string)
    requires NoUsa(s)
    ensures RemoveUsa(s) == s
    decreases |s|
  {
    if s != [] {
      assert s[0..] == s;
      assert NoUsa(s[1..]) by {
        forall i | 0 <= i < |s[1..]| ensures UsaMatch(s[1..][i..]).None? {
          assert s[1..][i..] == s[i + 1..];
        }
      }
      RemoveUsaNone(s[1..]);
    }
  }

  /** The pattern leaves the text unchanged exactly when it matches nowhere. */
  lemma RemoveUsaUnchanged(s: string)
    ensures RemoveUsa(s) == s <==> NoUsa(s)
  {
    RemoveUsaShrinks(s);
    if NoUsa(s) {
      RemoveUsaNone(s);
    }
  }

  /** A match needs a capital U. */
  lemma UsaMatchNeedsU(s: string)
    ensures UsaMatch(s).Some? ==> 'U' in s
  {
    var a := if s != [] && s[0] == ',' then s[1..] else s;
    var b := SkipSpace(a);
    if StartsWith(b, "Usa") {
      assert b[0] == 'U' && a[|a| - |b|] == b[0];
    }
  }

  /** Text without a capital U holds no match, and the removal leaves it alone. */
  lemma NoCapitalU(s: string)
    requires 'U' !in s
    ensures NoUsa(s) && RemoveUsa(s) == s
  {
    forall i | 0 <= i < |s| ensures UsaMatch(s[i..]).None? {
      UsaMatchNeedsU(s[i..]);
    }
    RemoveUsaNone(s);
  }

  /** The pattern has no word boundary either: "Usage" loses its "Usa". */
  lemma UsaInsideWord(s: string)
    requires s == "Usage"
    ensures RemoveUsa(s) == "ge"
  {
    SkipNoSpace(s);
    assert s[..3] == "Usa";
    var g := s[3..];
    assert g == "ge";
    SkipNoSpace(g);
    assert UsaMatch(s) == Some(3);
    NoCapitalU(g);
  }

  /**
   * A match cannot start in text without one and run into a comma that
   * follows it: after the optional comma and the whitespace, "Usa" would
   * have to lie inside the text.
   */
  lemma UsaNoneBeforeComma(x: string, tail: string)
    requires x != [] && UsaMatch(x).None?
    requires tail != [] && tail[0] == ','
    ensures UsaMatch(x + tail).None?
  {
    var a0 := if x[0] == ',' then x[1..] else x;
    UsaMatchAt(x, a0);
    AfterOptionalComma(x, tail, a0);
    var b0 := SkipBeforeTail(a0, tail);
    NotUsaBeforeComma(b0, tail);
    UsaMatchAt(x + tail, a0 + tail);
  }

  /** `lstrip` of text followed by a non-space: either all of the text goes, or what `lstrip` leaves of it stays. */
  lemma SkipBeforeTail(a: string, tail: string) returns (b: string)
    requires tail != [] && !IsSpace(tail[0])
    ensures SkipSpace(a + tail) == b + tail && (b == [] || b == SkipSpace(a))
  {
    if AllSpace(a) {
      SkipSpacePrefix(a, tail);
      SkipNoSpace(tail);
      b := [];
      assert b + tail == tail;
    } else {
      SkipSpaceAppend(a, tail);
      b := SkipSpace(a);
    }
  }

  /** Whether the pattern matches depends only on what follows the optional comma and the whitespace. */
  lemma UsaMatchAt(s: string, a: string)
    requires a == if s != [] && s[0] == ',' then s[1..] else s
    ensures UsaMatch(s).None? <==> !StartsWith(SkipSpace(a), "Usa")
  {
  }

  lemma AfterOptionalComma(x: string, tail: string, a0: string)
    requires x != [] && a0 == if x[0] == ',' then x[1..] else x
    ensures a0 + tail == if (x + tail)[0] == ',' then (x + tail)[1..] else x + tail
  {
    assert (x + tail)[0] == x[0];
    if x[0] == ',' {
      assert (x + tail)[1..] == x[1..] + tail;
    }
  }

  /** Text that does not start with "Usa" does not after a comma is put behind it. */
  lemma NotUsaBeforeComma(b0: string, tail: string)
    requires !StartsWith(b0, "Usa")
    requires tail != [] && tail[0] == ','
    ensures !StartsWith(b0 + tail, "Usa")
  {
    var b := b0 + tail;
    if |b0| >= 3 {
      assert b[..3] == b0[..3];
    } else if |b| >= 3 {
      assert b[|b0|] == ',';
      assert b[..3][|b0|] == b[|b0|];
    }
  }

  /**
   * Text without a match, followed by a final match that starts with a
   * comma: from any position inside the text, the removal gives back the
   * rest of the text and drops the final match.
   */
  lemma {:induction false} UsaTailRemoved(s: string, base: string, tail: string, k: nat)
    requires s == base + tail && NoUsa(base) && k <= |base|
    requires tail != [] && tail[0] == ',' && UsaMatch(tail) == Some(|tail|)
    ensures RemoveUsa(s[k..]) == base[k..]
    decreases |base| - k
  {
    if k == |base| {
      assert s[k..] == tail && base[k..] == [];
      RemoveWholeMatch(tail);
    } else {
      UsaTailRemoved(s, base, tail, k + 1);
      UsaNoneAt(s, base, tail, k);
      SliceStep(s, k);
      SliceStep(base, k);
      assert s[k] == base[k];
      UsaTailStep(s[k..], s[k + 1..], base[k..]);
    }
  }

  /** No match starts inside the text: it would have to be one in the text alone. */
  lemma UsaNoneAt(s: string, base: string, tail: string, k: nat)
    requires s == base + tail && NoUsa(base) && k < |base|
    requires tail != [] && tail[0] == ','
    ensures UsaMatch(s[k..]).None?
  {
    DropAppend(base, tail, k);
    NoUsaAt(base, k);
    DropNonEmpty(base, k);
    UsaNoneBeforeComma(base[k..], tail);
  }

  lemma DropNonEmpty(base: string, k: nat)
    requires k < |base|
    ensures base[k..] != []
  {
  }

  lemma DropAppend(base: string, tail: string, k: nat)
    requires k <= |base|
    ensures (base + tail)[k..] == base[k..] + tail
  {
  }

  lemma NoUsaAt(base: string, k: nat)
    requires NoUsa(base) && k < |base|
    ensures UsaMatch(base[k..]).None?
  {
  }

  lemma UsaTailStep(s: string, rest: string, base: string)
    requires s != [] && UsaMatch(s).None? && rest == s[1..]
    requires base != [] && s[0] == base[0] && RemoveUsa(rest) == base[1..]
    ensures RemoveUsa(s) == base
  {
    RemoveUsaKeeps(s, rest);
    ConsSplit(base);
  }

  lemma SliceStep(s: string, k: nat)
    requires k < |s|
    ensures s[k..] != [] && s[k..][0] == s[k] && s[k..][1..] == s[k + 1..]
  {
  }

  lemma ConsSplit(s: string)
    requires s != []
    ensures s == [s[0]] + s[1..]
  {
  }

  lemma RemoveWholeMatch(s: string)
    requires s != [] && UsaMatch(s) == Some(|s|)
    ensures RemoveUsa(s) == []
  {
    RemoveUsaAt(s, |s|);
    assert s[|s|..] == [];
  }

  lemma RemoveUsaAt(s: string, n: nat)
    requires s != [] && UsaMatch(s) == Some(n)
    ensures RemoveUsa(s) == RemoveUsa(s[n..])
  {
  }

  lemma RemoveUsaKeeps(s: string, rest: string)
    requires s != [] && UsaMatch(s).None? && rest == s[1..]
    ensures RemoveUsa(s) == [s[0]] + RemoveUsa(rest)
  {
  }

  /** ", Usa" is one whole match. */
  lemma CommaUsaMatch(tail: string)
    requires tail == ", Usa"
    ensures UsaMatch(tail) == Some(|tail|)
  {
    var a := tail[1..];
    assert a[0] == ' ';
    var b := SkipSpace(a);
    assert b == SkipSpace(a[1..]);
    assert a[1..] == "Usa";
    SkipNoSpace(a[1..]);
    assert b[3..] == [];
  }

  /** `re.sub(r',?\s*Usa\s*', '', base + ", Usa")` is `base` when the pattern matches nowhere in `base`. */
  lemma TrailingUsaRemoved(base: string)
    requires NoUsa(base)
    ensures RemoveUsa(base + ", Usa") == base
  {
    var tail := ", Usa";
    var s := base + tail;
    CommaUsaMatch(tail);
    UsaTailRemoved(s, base, tail, 0);
    assert s[0..] == s && base[0..] == base;
  }

  /** `clean_address` */
  function CleanAddress(address: Option<string>): (r: string)
    ensures Missing(address) ==> r == []
    ensures Trimmed(r)
  {
    if Missing(address) then [] else Strip(RemoveUsa(Title(SpacedText(address.value))))
  }

  /**
   * An address is cleaned like a business name, then every match of the
   * "Usa" pattern is removed and the ends are stripped: when there is no
   * match it is the stripped business-name cleaning, otherwise it is shorter.
   */
  lemma CleanAddressLikeName(address: Option<string>)
    ensures var named := CleanBusinessName(address);
      && (NoUsa(named) ==> CleanAddress(address) == Strip(named))
      && (!NoUsa(named) ==> |CleanAddress(address)| < |named|)
  {
    var named := CleanBusinessName(address);
    if !Missing(address) {
      RemoveUsaUnchanged(named);
      RemoveUsaShrinks(named);
    }
  }

  /**
   * An address whose business-name cleaning ends in ", Usa" after text
   * without a match comes out as that text, stripped: the trailing country
   * is dropped and nothing else.
   */
  lemma AddressDropsTrailingUsa(address: Option<string>, base: string)
    requires CleanBusinessName(address) == base + ", Usa" && NoUsa(base)
    ensures CleanAddress(address) == Strip(base)
  {
    TrailingUsaRemoved(base);
  }

  // ---------------------------------------------------------------------
  // Agent names: clean_agent_name
  // ---------------------------------------------------------------------

  /** `clean_agent_name`: a "Last, First" name with exactly one comma becomes "First Last". */
  function CleanAgentName(name: Option<string>): (r: string)
    ensures Missing(name) ==> r == []
  {
    if Missing(name) then []
    else
      var v := AgentText(name.value);
      if ',' in v && Count(v, ',') == 1 then
        var parts := SplitOn(v, ',');
        if |parts| == 2 then Strip(parts[1]) + " " + Strip(parts[0]) else v
      else v
  }

  /** Splitting at the only comma gives the text before it and the text after it. */
  lemma SplitOnOneComma(v: string)
    requires Count(v, ',') == 1
    ensures var i := IndexOf(v, ',');
      SplitOn(v, ',') == [v[..i], v[i + 1..]]
  {
    var i := IndexOf(v, ',');
    CountSplit(v, i, ',');
    assert ',' !in v[i + 1..];
  }

  /** The text the agent-name cleaner starts from: stripped, single-spaced and title-cased. */
  function AgentText(v: string): string {
    Title(CollapseSpace(Strip(v)))
  }

  /** An agent name with exactly one comma is swapped around it. */
  lemma AgentSwapped(name: Option<string>)
    requires !Missing(name) && Count(AgentText(name.value), ',') == 1
    ensures var v := AgentText(name.value);
      var i := IndexOf(v, ',');
      CleanAgentName(name) == Strip(v[i + 1..]) + " " + Strip(v[..i])
  {
    SplitOnOneComma(AgentText(name.value));
  }

  /**
   * An agent name with exactly one comma comes out as the stripped part
   * after the comma, a space, and the stripped part before it; the comma is
   * gone.
   */
  lemma CleanAgentNameSwap(name: Option<string>)
    requires !Missing(name) && Count(AgentText(name.value), ',') == 1
    ensures var v := AgentText(name.value);
      var i := IndexOf(v, ',');
      var r := CleanAgentName(name);
      r == Strip(v[i + 1..]) + " " + Strip(v[..i]) && ',' !in r
  {
    var v := AgentText(name.value);
    AgentSwapped(name);
    var i := IndexOf(v, ',');
    CountSplit(v, i, ',');
    assert Count(v[i + 1..], ',') == 0;
    NoCommaStrip(v[..i]);
    NoCommaStrip(v[i + 1..]);
    NoCommaJoin(Strip(v[i + 1..]), Strip(v[..i]));
  }

  lemma NoCommaJoin(a: string, b: string)
    requires ',' !in a && ',' !in b
    ensures ',' !in a + " " + b
  {
  }

  /**
   * The agent text keeps the characters up to case and the words up to
   * case, is trimmed, title-cased and single-spaced with plain spaces.
   */
  lemma AgentTextShape(x: string)
    ensures var v := AgentText(x);
      && Lower(NonSpace(v)) == Lower(NonSpace(x)) && NoDoubleSpace(v) && Trimmed(v)
      && IsTitleCased(v) && OnlyPlainSpaces(v) && Split(Lower(v)) == Split(Lower(x))
  {
    var s := Strip(x);
    var c := CollapseSpace(s);
    var v := Title(c);
    NonSpaceStrip(x);
    NonSpaceCollapse(s);
    NonSpaceLower(v);
    NonSpaceLower(c);
    TitleLower(c);
    assert SameNonLetters(c, v);
    SameNonLettersSpacing(c, v);
    TitleLastChar(c);
    SpacingKeepsWords(x);
  }

  /**
   * `str.title()` after stripping and collapsing whitespace keeps the words
   * up to case.
   */
  lemma SpacingKeepsWords(x: string)
    ensures Split(Lower(Title(CollapseSpace(Strip(x))))) == Split(Lower(x))
  {
    var s := Strip(x);
    var c := CollapseSpace(s);
    TitleLower(c);
    SplitLower(c);
    SplitCollapse(s);
    SplitStrip(x);
    SplitLower(x);
  }

  /**
   * With any other number of commas, only whitespace and case change: the
   * result keeps the characters and the words up to case, is trimmed,
   * title-cased and single-spaced with plain spaces.
   */
  lemma CleanAgentNameKeeps(name: Option<string>)
    requires !Missing(name) && Count(AgentText(name.value), ',') != 1
    ensures var r := CleanAgentName(name);
      && Lower(NonSpace(r)) == Lower(NonSpace(name.value)) && NoDoubleSpace(r) && Trimmed(r)
      && IsTitleCased(r) && OnlyPlainSpaces(r) && Split(Lower(r)) == Split(Lower(name.value))
  {
    assert CleanAgentName(name) == AgentText(name.value);
    AgentTextShape(name.value);
  }

  /** Title-casing keeps a last character that is not whitespace. */
  lemma TitleLastChar(c: string)
    ensures c != [] && !IsSpace(c[|c| - 1]) ==> !IsSpace(Title(c)[|c| - 1])
  {
  }

  lemma NoCommaStrip(t: string)
    requires ',' !in t
    ensures ',' !in Strip(t)
  {
    var u := SkipSpace(t);
    var w := RStrip(u);
    assert forall j :: 0 <= j < |w| ==> w[j] == t[|t| - |u| + j];
  }

  // ---------------------------------------------------------------------
  // Whole rows and frames: clean_business_data
  // ---------------------------------------------------------------------

  /** `fillna(d)` on one cell. */
  function FillNa(x: Option<string>, d: string): (r: Option<string>)
    ensures r.Some?
    ensures x.Some? ==> r == x
    ensures x.None? ==> r.value == d
  {
    if x.None? then Some(d) else x
  }

  /** Filling missing names with the empty string before cleaning changes nothing. */
  lemma FillEmptyIrrelevant(x: Option<string>)
    ensures CleanBusinessName(FillNa(x, "")) == CleanBusinessName(x)
    ensures CleanAgentName(FillNa(x, "")) == CleanAgentName(x)
  {
  }

  /** One row as `clean_business_data` leaves it. */
  function CleanRow(row: Row): (c: Row)
    ensures c.businessName.Some? && c.previousName.Some? && c.address.Some? && c.agent.Some? && c.status.Some?
    ensures c.searchTerm == row.searchTerm
    ensures row.status.Some? ==> c.status == row.status
    ensures row.status.None? ==> c.status == Some("Unknown")
    ensures row.previousName.None? ==> c.previousName == Some("")
    ensures row.agent.None? ==> c.agent == Some("")
  {
    Row(Some(CleanBusinessName(row.businessName)),
        Some(CleanBusinessName(FillNa(row.previousName, ""))),
        Some(CleanAddress(row.address)),
        Some(CleanAgentName(FillNa(row.agent, ""))),
        FillNa(row.status, "Unknown"),
        row.searchTerm)
  }

  /** Every row cleaned, in the same order. */
  function CleanRows(rows: seq<Row>): (out: seq<Row>)
    ensures |out| == |rows|
  {
    seq(|rows|, i requires 0 <= i < |rows| => CleanRow(rows[i]))
  }

  /**
   * The five column assignments of `clean_business_data`, applied to the
   * frame they are given: names, previous names (missing ones filled with
   * ''), addresses, agents (missing ones filled with '') and statuses
   * (missing ones filled with 'Unknown').
   */
  method CleanColumns(df: Frame)
    modifies df
    ensures df.rows == CleanRows(old(df.rows))
    ensures df.normalized == old(df.normalized)
  {
    var rows := df.rows;
    df.rows := seq(|rows|, i requires 0 <= i < |rows| =>
      rows[i].(businessName := Some(CleanBusinessName(rows[i].businessName))));
    rows := df.rows;
    df.rows := seq(|rows|, i requires 0 <= i < |rows| =>
      rows[i].(previousName := Some(CleanBusinessName(FillNa(rows[i].previousName, "")))));
    rows := df.rows;
    df.rows := seq(|rows|, i requires 0 <= i < |rows| =>
      rows[i].(address := Some(CleanAddress(rows[i].address))));
    rows := df.rows;
    df.rows := seq(|rows|, i requires 0 <= i < |rows| =>
      rows[i].(agent := Some(CleanAgentName(FillNa(rows[i].agent, "")))));
    rows := df.rows;
    df.rows := seq(|rows|, i requires 0 <= i < |rows| =>
      rows[i].(status := FillNa(rows[i].status, "Unknown")));
    assert forall i :: 0 <= i < |df.rows| ==> df.rows[i] == CleanRow(old(df.rows)[i]);
  }

  /** `clean_business_data` of cleaner.py: cleans a copy and leaves the given frame alone. */
  method CleanBusinessData(df: Frame) returns (out: Frame)
    ensures fresh(out)
    ensures out.rows == CleanRows(df.rows) && out.normalized == df.normalized
  {
    out := new Frame(df.rows);
    out.normalized := df.normalized;
    CleanColumns(out);
  }

  // ---------------------------------------------------------------------
  // Matching key: normalize_for_matching
  // ---------------------------------------------------------------------

  /** The alternatives of the legal-suffix pattern, in the pattern's order. */
  const LegalSuffixes: seq<string> :=
    ["llc", "inc", "corp", "corporation", "company", "co", "ltd", "limited", "lp", "llp", "pc", "pllc"]

  predicate SepChar(c: char) { IsSpace(c) || c == ',' }

  /**
   * What is left after the `\s*,?\s*` part of the suffix pattern has matched
   * at the start of `t`. Greedy matching never has to give anything back
   * here: the suffix that must follow starts with a letter.
   */
  function AfterSeparator(t: string): (r: string)
    ensures |r| <= |t| && r == t[|t| - |r|..]
    ensures r == [] || !IsSpace(r[0])
    ensures forall j :: 0 <= j < |t| - |r| ==> SepChar(t[j])
  {
    var a := SkipSpace(t);
    if a != [] && a[0] == ',' then
      var r := SkipSpace(a[1..]);
      CommaRun(t, a, r);
      r
    else
      SpaceRun(t, a);
      a
  }

  /** Whitespace skipped from the front of `t` is made of separator characters. */
  lemma SpaceRun(t: string, a: string)
    requires |a| <= |t| && forall j :: 0 <= j < |t| - |a| ==> IsSpace(t[j])
    ensures forall j :: 0 <= j < |t| - |a| ==> SepChar(t[j])
  {
  }

  /** Whitespace, a comma and whitespace skipped from the front of `t` are all separator characters. */
  lemma CommaRun(t: string, a: string, r: string)
    requires |a| <= |t| && a == t[|t| - |a|..] && a != [] && a[0] == ','
    requires forall j :: 0 <= j < |t| - |a| ==> IsSpace(t[j])
    requires |r| <= |a| - 1 && r == a[1..][|a| - 1 - |r|..]
    requires forall j :: 0 <= j < |a| - 1 - |r| ==> IsSpace(a[1..][j])
    ensures r == t[|t| - |r|..]
    ensures forall j :: 0 <= j < |t| - |r| ==> SepChar(t[j])
  {
    var p := |t| - |a|;
    forall j | 0 <= j < |t| - |r| ensures SepChar(t[j]) {
      if p < j {
        assert t[j] == a[1..][j - p - 1];
      } else if j == p {
        assert t[j] == a[0];
      }
    }
  }

  /** `\.?\s*$` matches all of `t`. */
  predicate DotThenSpaces(t: string) {
    AllSpace(t) || (t != [] && t[0] == '.' && AllSpace(t[1..]))
  }

  /** The word `w` (compared ignoring case) followed by `\.?\s*$` matches all of `b`. */
  predicate WordAt(b: string, w: string) {
    |w| <= |b| && Lower(b[..|w|]) == w && DotThenSpaces(b[|w|..])
  }

  /** The suffix pattern matches `s` from index `i` to the end. */
  predicate SuffixMatchAt(s: string, i: nat)
    requires i <= |s|
  {
    var b := AfterSeparator(s[i..]);
    exists w :: w in LegalSuffixes && WordAt(b, w)
  }

  /** The least index from `i` on where the suffix pattern matches, or `|s|` if there is none. */
  function FirstSuffixMatch(s: string, i: nat): (j: nat)
    requires i <= |s|
    decreases |s| - i
    ensures i <= j <= |s|
    ensures j < |s| ==> SuffixMatchAt(s, j)
    ensures forall m :: i <= m < j ==> !SuffixMatchAt(s, m)
  {
    if i == |s| then |s|
    else if SuffixMatchAt(s, i) then i
    else FirstSuffixMatch(s, i + 1)
  }

  /**
   * `re.sub(r'\s*,?\s*(llc|…|pllc)\.?\s*$', '', s, flags=re.IGNORECASE)`:
   * the leftmost match runs to the end of the string, so at most one suffix
   * is removed and what remains is a prefix of `s`.
   */
  function StripLegalSuffix(s: string): (r: string)
    ensures |r| <= |s| && r == s[..|r|]
    ensures |r| < |s| ==> SuffixMatchAt(s, |r|)
    ensures forall m :: 0 <= m < |r| ==> !SuffixMatchAt(s, m)
  {
    s[..FirstSuffixMatch(s, 0)]
  }

  /** `re.sub(r'[^\w\s]', ' ', s)` */
  function PunctuationToSpace(s: string): (r: string)
    ensures |r| == |s|
  {
    seq(|s|, i requires 0 <= i < |s| => if IsWordChar(s[i]) || IsSpace(s[i]) then s[i] else ' ')
  }

  /**
   * The shape of every matching key: lower-case letters, digits and `_`
   * in words separated by single spaces, with no space at either end.
   */
  predicate IsMatchKey(key: string) {
    && Trimmed(key)
    && NoDoubleSpace(key)
    && OnlyPlainSpaces(key)
    && forall i :: 0 <= i < |key| && key[i] != ' ' ==> IsWordChar(key[i]) && !IsUpper(key[i])
  }

  /** The four normalisation steps applied to a present, non-empty name. */
  function NormalizeText(name: string): string {
    var lowered := Strip(Lower(name));
    JoinSpace(Split(PunctuationToSpace(StripLegalSuffix(lowered))))
  }

  /** normalize_for_matching */
  function NormalizeForMatching(name: Option<string>): (key: string)
    ensures Missing(name) ==> key == []
    ensures IsMatchKey(key)
  {
    if Missing(name) then []
    else
      NormalizeTextIsKey(name.value);
      NormalizeText(name.value)
  }

  /** The key ignores case: names that lower-case alike get the same key. */
  lemma CaseInsensitiveKey(s: string, t: string)
    requires Lower(s) == Lower(t)
    ensures NormalizeForMatching(Some(s)) == NormalizeForMatching(Some(t))
  {
    assert |s| == |Lower(s)| && |t| == |Lower(t)|;
  }

  predicate NotUpper(c: char) { !IsUpper(c) }

  predicate KeyChar(c: char) { IsSpace(c) || (IsWordChar(c) && !IsUpper(c)) }

  predicate WordKeyChar(c: char) { IsWordChar(c) && !IsUpper(c) }

  /** Before splitting, every character is whitespace or a lower-case word character. */
  lemma SpacedKeyChars(name: string)
    ensures All(PunctuationToSpace(StripLegalSuffix(Strip(Lower(name)))), KeyChar)
  {
    var lowered := Lower(name);
    assert All(lowered, NotUpper) by {
      forall i | 0 <= i < |lowered| ensures NotUpper(lowered[i]) {
        assert lowered[i] == ToLower(name[i]);
      }
    }
    StripKeeps(lowered, NotUpper);
    var stripped := StripLegalSuffix(Strip(lowered));
    assert All(stripped, NotUpper);
    PunctuationKeyChars(stripped);
  }

  /** Replacing punctuation in text without upper-case letters leaves only key characters. */
  lemma PunctuationKeyChars(s: string)
    requires All(s, NotUpper)
    ensures All(PunctuationToSpace(s), KeyChar)
  {
    var r := PunctuationToSpace(s);
    forall i | 0 <= i < |r| ensures KeyChar(r[i]) {
      assert NotUpper(s[i]);
    }
  }

  lemma NormalizeTextIsKey(name: string)
    ensures IsMatchKey(NormalizeText(name))
  {
    var spaced := PunctuationToSpace(StripLegalSuffix(Strip(Lower(name))));
    SpacedKeyChars(name);
    KeyFromSpaced(spaced);
  }

  /** Splitting and joining text made of whitespace and key characters gives a matching key. */
  lemma KeyFromSpaced(spaced: string)
    requires All(spaced, KeyChar)
    ensures IsMatchKey(JoinSpace(Split(spaced)))
  {
    var words := Split(spaced);
    SplitKeeps(spaced, KeyChar);
    WordsAreKeyWords(words);
    JoinShape(words, WordKeyChar);
    KeyFromShape(JoinSpace(words));
  }

  lemma KeyFromShape(key: string)
    requires Trimmed(key) && NoDoubleSpace(key) && OnlyPlainSpaces(key)
    requires forall i :: 0 <= i < |key| && key[i] != ' ' ==> WordKeyChar(key[i])
    ensures IsMatchKey(key)
  {
  }

  /** Non-empty words without whitespace whose characters are key characters hold only word characters. */
  lemma WordsAreKeyWords(words: seq<string>)
    requires forall k :: 0 <= k < |words| ==> words[k] != [] && NoSpace(words[k]) && All(words[k], KeyChar)
    ensures forall k :: 0 <= k < |words| ==> words[k] != [] && NoSpace(words[k]) && All(words[k], WordKeyChar)
  {
    forall k, i | 0 <= k < |words| && 0 <= i < |words[k]| ensures WordKeyChar(words[k][i]) {
      assert KeyChar(words[k][i]) && !IsSpace(words[k][i]);
    }
  }

  // --- Which names lose a suffix ---------------------------------------

  /** `s` ends with the word `w`, possibly followed by a period (ignoring case). */
  predicate EndsWithWord(s: string, w: string) {
    var n := |w|;
    || (n <= |s| && Lower(s[|s| - n..]) == w)
    || (n < |s| && s[|s| - 1] == '.' && Lower(s[|s| - 1 - n..|s| - 1]) == w)
  }

  /** `s` ends with a listed suffix, possibly followed by a period (ignoring case). */
  predicate EndsWithLegalSuffix(s: string) {
    exists w :: w in LegalSuffixes && EndsWithWord(s, w)
  }

  /** A word of at least two lower-case letters, as every listed suffix is. */
  predicate LowerWord(w: string) {
    |w| >= 2 && forall j :: 0 <= j < |w| ==> IsLower(w[j])
  }

  lemma SuffixesAreLowerWords(w: string)
    requires w in LegalSuffixes
    ensures LowerWord(w)
  {
  }

  /** The listed suffix that the suffix pattern matched in `b`. */
  lemma PickSuffix(b: string) returns (w: string)
    requires exists w :: w in LegalSuffixes && WordAt(b, w)
    ensures w in LegalSuffixes && LowerWord(w) && WordAt(b, w)
  {
    w :| w in LegalSuffixes && WordAt(b, w);
    SuffixesAreLowerWords(w);
  }

  /** Text that lower-cases to a lower-case word consists of letters only. */
  lemma LowersToSuffixIsLetters(t: string, w: string)
    requires LowerWord(w) && Lower(t) == w
    ensures forall j :: 0 <= j < |t| ==> IsLetter(t[j])
  {
    forall j | 0 <= j < |t| ensures IsLetter(t[j]) {
      assert Lower(t)[j] == ToLower(t[j]);
    }
  }

  /** `\.?\s*$` on text that does not end in whitespace is the empty string or one period. */
  lemma DotThenSpacesShape(t: string)
    requires DotThenSpaces(t) && (t == [] || !IsSpace(t[|t| - 1]))
    ensures t == [] || t == "."
  {
    SpacesAfterFirst(t);
  }

  lemma SpacesAfterFirst(t: string)
    ensures |t| >= 2 && AllSpace(t[1..]) ==> IsSpace(t[|t| - 1])
  {
    if |t| >= 2 && AllSpace(t[1..]) {
      assert t[|t| - 1] == t[1..][|t| - 2];
    }
  }

  /**
   * What a listed suffix matches in text that does not end in whitespace:
   * the letters of the suffix and at most a period, so no separator character.
   */
  lemma SuffixAtShape(b: string, w: string)
    requires LowerWord(w) && WordAt(b, w)
    requires !IsSpace(b[|b| - 1])
    ensures b[|w|..] == [] || b[|w|..] == "."
    ensures forall j :: 0 <= j < |b| ==> !SepChar(b[j])
  {
    var len := |w|;
    LowersToSuffixIsLetters(b[..len], w);
    var tail := b[len..];
    assert tail == [] || tail[|tail| - 1] == b[|b| - 1];
    DotThenSpacesShape(tail);
    forall j | 0 <= j < |b| ensures !SepChar(b[j]) {
      if j < len {
        assert b[j] == b[..len][j];
      } else {
        assert b[j] == tail[j - len];
      }
    }
  }

  /** What follows the separator of `s[m..]` is a tail of `s` itself. */
  lemma AfterSeparatorTail(s: string, m: nat) returns (b: string)
    requires m <= |s|
    ensures b == AfterSeparator(s[m..])
    ensures m <= |s| - |b| && b == s[|s| - |b|..]
  {
    b := AfterSeparator(s[m..]);
    TailOfSlice(s, m, |b|);
  }

  lemma TailOfSlice(s: string, m: nat, len: nat)
    requires m <= |s| && len <= |s| - m
    ensures s[m..][|s| - m - len..] == s[|s| - len..]
  {
  }

  /**
   * Where the suffix pattern matches a string that does not end in
   * whitespace, the match is a run of separator characters (whitespace and
   * commas) followed by a run of characters that are neither.
   */
  lemma MatchShape(s: string, m: nat)
    requires s != [] && !IsSpace(s[|s| - 1]) && m <= |s|
    ensures SuffixMatchAt(s, m) ==>
      var n := |s| - |AfterSeparator(s[m..])|;
      && m <= n < |s|
      && (forall j :: m <= j < n ==> SepChar(s[j]))
      && (forall j :: n <= j < |s| ==> !SepChar(s[j]))
  {
    if SuffixMatchAt(s, m) {
      var b := AfterSeparator(s[m..]);
      var w := PickSuffix(b);
      SeparatorRun(s, m);
      MatchParts(s, b, w);
    }
  }

  /** A tail `b` of `s` matched by `WordAt` is not empty and holds no separator character. */
  lemma MatchParts(s: string, b: string, w: string)
    requires s != [] && !IsSpace(s[|s| - 1])
    requires |b| <= |s| && b == s[|s| - |b|..]
    requires LowerWord(w) && WordAt(b, w)
    ensures b != []
    ensures forall j :: |s| - |b| <= j < |s| ==> !SepChar(s[j])
  {
    assert b[|b| - 1] == s[|s| - 1];
    SuffixAtShape(b, w);
    TailChars(s, |s| - |b|);
  }

  lemma TailChars(s: string, n: nat)
    requires n <= |s| && forall j :: 0 <= j < |s| - n ==> !SepChar(s[n..][j])
    ensures forall j :: n <= j < |s| ==> !SepChar(s[j])
  {
    forall j | n <= j < |s| ensures !SepChar(s[j]) {
      assert s[j] == s[n..][j - n];
    }
  }

  /** The separator part matched in `s[m..]` is a run of separator characters of `s` itself. */
  lemma SeparatorRun(s: string, m: nat)
    requires m <= |s|
    ensures var b := AfterSeparator(s[m..]);
      && m <= |s| - |b| && b == s[|s| - |b|..]
      && forall j :: m <= j < |s| - |b| ==> SepChar(s[j])
  {
    var t := s[m..];
    var b := AfterSeparatorTail(s, m);
    forall j | m <= j < |s| - |AfterSeparator(t)| ensures SepChar(s[j]) {
      assert s[j] == t[j - m];
    }
  }

  /** A tail of `s` that is a listed suffix and at most a period makes `s` end with that suffix. */
  lemma EndsFromTail(s: string, b: string, w: string)
    requires WordAt(b, w)
    requires |b| <= |s| && b == s[|s| - |b|..]
    requires b[|w|..] == [] || b[|w|..] == "."
    ensures EndsWithWord(s, w)
  {
    var len := |w|;
    var p := |s| - |b|;
    SliceOfSuffix(s, p, len);
    var word := s[p..p + len];
    assert Lower(word) == w;
    if b[len..] == [] {
      assert word == s[|s| - len..];
    } else {
      assert s[|s| - 1] == b[len];
      assert word == s[|s| - 1 - len..|s| - 1];
    }
  }

  /** Where the suffix pattern matches a trimmed name, the name ends with a listed suffix. */
  lemma MatchEndsWithSuffix(s: string, m: nat)
    requires m <= |s|
    ensures Trimmed(s) && m < |s| && SuffixMatchAt(s, m) ==> EndsWithLegalSuffix(s)
  {
    if Trimmed(s) && m < |s| && SuffixMatchAt(s, m) {
      ListedAreLowerWords();
      MatchEndsWithWordIn(s, m, LegalSuffixes);
    }
  }

  /** Every listed suffix is a lower-case word. */
  lemma ListedAreLowerWords()
    ensures forall w :: w in LegalSuffixes ==> LowerWord(w)
  {
    forall w | w in LegalSuffixes
      ensures LowerWord(w)
    {
      SuffixesAreLowerWords(w);
    }
  }

  /**
   * The same fact for any list of lower-case words: a word matched after the
   * separator starting at `m` is a word the whole string ends with.
   */
  lemma MatchEndsWithWordIn(s: string, m: nat, ws: seq<string>)
    requires Trimmed(s) && m < |s|
    requires forall w :: w in ws ==> LowerWord(w)
    requires exists w :: w in ws && WordAt(AfterSeparator(s[m..]), w)
    ensures exists w :: w in ws && EndsWithWord(s, w)
  {
    var w :| w in ws && WordAt(AfterSeparator(s[m..]), w);
    MatchedWordEnds(s, m, w);
  }

  lemma MatchedWordEnds(s: string, m: nat, w: string)
    requires Trimmed(s) && m < |s|
    requires LowerWord(w) && WordAt(AfterSeparator(s[m..]), w)
    ensures EndsWithWord(s, w)
  {
    var b := AfterSeparatorTail(s, m);
    MatchedSuffixEnds(s, b, w);
  }

  lemma MatchedSuffixEnds(s: string, b: string, w: string)
    requires LowerWord(w) && WordAt(b, w)
    requires Trimmed(s) && |b| <= |s| && b == s[|s| - |b|..]
    ensures EndsWithWord(s, w)
  {
    assert b[|b| - 1] == s[|s| - 1];
    SuffixAtShape(b, w);
    EndsFromTail(s, b, w);
  }

  lemma SliceOfSuffix(s: string, p: nat, len: nat)
    requires p + len <= |s|
    ensures s[p..][..len] == s[p..p + len]
  {
  }

  /**
   * A trimmed name with no listed suffix at its end (ignoring case,
   * optionally followed by a period) keeps every character.
   */
  lemma NoLegalSuffixKept(s: string)
    requires Trimmed(s) && !EndsWithLegalSuffix(s)
    ensures StripLegalSuffix(s) == s
  {
    MatchEndsWithSuffix(s, |StripLegalSuffix(s)|);
  }

  /** Text starting with a letter has no separator to skip. */
  lemma AfterSeparatorLetter(t: string)
    requires t != [] && IsLetter(t[0])
    ensures AfterSeparator(t) == t
  {
    SkipNoSpace(t);
  }

  /** A word followed by nothing or one period is matched by `WordAt`. */
  lemma SuffixAtWord(t: string, w: string)
    requires |w| <= |t| && Lower(t[..|w|]) == w && (t[|w|..] == [] || t[|w|..] == ".")
    ensures WordAt(t, w)
  {
  }

  /** Where `s` ends with the word `w`, the rest of `s` from the start of that word is matched by `WordAt`. */
  lemma WordAtEnding(s: string, w: string) returns (i: nat)
    requires LowerWord(w) && EndsWithWord(s, w)
    ensures i < |s| && AfterSeparator(s[i..]) == s[i..] && WordAt(s[i..], w)
  {
    var n := |w|;
    i := if n <= |s| && Lower(s[|s| - n..]) == w then |s| - n else |s| - 1 - n;
    var t := s[i..];
    assert t[..n] == s[i..i + n];
    LowersToSuffixIsLetters(t[..n], w);
    assert t[0] == t[..n][0];
    AfterSeparatorLetter(t);
    SuffixAtWord(t, w);
  }

  /** Where `s` ends with a listed suffix, the suffix pattern matches at the start of that suffix. */
  lemma MatchAtEnding(s: string) returns (i: nat)
    requires EndsWithLegalSuffix(s)
    ensures i < |s| && SuffixMatchAt(s, i)
  {
    var w :| w in LegalSuffixes && EndsWithWord(s, w);
    SuffixesAreLowerWords(w);
    i := WordAtEnding(s, w);
    assert w in LegalSuffixes && WordAt(AfterSeparator(s[i..]), w);
  }

  /**
   * A name that ends with the listed suffix `w` (optionally followed by a
   * period) loses at least that suffix, and the period with it.
   */
  lemma LegalSuffixRemoved(s: string, w: string)
    requires w in LegalSuffixes && EndsWithWord(s, w)
    ensures |StripLegalSuffix(s)| + |w| <= |s|
    ensures s != [] && s[|s| - 1] == '.' ==> |StripLegalSuffix(s)| + |w| < |s|
  {
    SuffixesAreLowerWords(w);
    var i := WordAtEnding(s, w);
    assert SuffixMatchAt(s, i);
    if s[|s| - 1] == '.' {
      WordBeforeDot(s[i..], w);
    }
  }

  /** A listed suffix read at the start of `b` cannot take in a final period. */
  lemma WordBeforeDot(b: string, w: string)
    requires LowerWord(w) && |w| <= |b| && Lower(b[..|w|]) == w && b[|b| - 1] == '.'
    ensures |w| < |b|
  {
    assert Lower(b[..|w|])[|w| - 1] == ToLower(b[|w| - 1]);
  }

  /** The separator between a name and its suffix: whitespace around at most one comma. */
  predicate IsSeparator(sep: string) {
    sep != [] && (forall j :: 0 <= j < |sep| ==> SepChar(sep[j])) && Count(sep, ',') <= 1
  }

  lemma SkipNoSpace(x: string)
    requires x == [] || !IsSpace(x[0])
    ensures SkipSpace(x) == x
  {
  }

  lemma SkipSpacePrefix(w: string, x: string)
    requires AllSpace(w)
    ensures SkipSpace(w + x) == SkipSpace(x)
    decreases |w|
  {
    if w != [] {
      SkipSpaceStep(w, x);
      SkipSpacePrefix(w[1..], x);
    } else {
      assert w + x == x;
    }
  }

  lemma SkipSpaceStep(w: string, x: string)
    requires w != [] && IsSpace(w[0])
    ensures SkipSpace(w + x) == SkipSpace(w[1..] + x)
  {
    assert (w + x)[0] == w[0];
    assert (w + x)[1..] == w[1..] + x;
  }

  /** Whitespace in front of a letter is exactly what the separator part consumes. */
  lemma AfterSpaces(w: string, x: string)
    requires AllSpace(w) && x != [] && IsLetter(x[0])
    ensures AfterSeparator(w + x) == x
  {
    SkipSpacePrefix(w, x);
    SkipNoSpace(x);
  }

  /** Whitespace, one comma and whitespace in front of a letter is what the separator part consumes. */
  lemma AfterComma(w1: string, w2: string, x: string)
    requires AllSpace(w1) && AllSpace(w2) && x != [] && IsLetter(x[0])
    ensures AfterSeparator(w1 + ([','] + (w2 + x))) == x
  {
    var c := [','] + (w2 + x);
    SkipSpacePrefix(w1, c);
    assert c[0] == ',';
    SkipNoSpace(c);
    assert c[1..] == w2 + x;
    SkipSpacePrefix(w2, x);
    SkipNoSpace(x);
  }

  /** A separator with a comma is whitespace, the comma, and whitespace. */
  lemma SeparatorParts(sep: string) returns (c: nat)
    requires IsSeparator(sep) && ',' in sep
    ensures c < |sep| && sep == sep[..c] + ([','] + sep[c + 1..])
    ensures AllSpace(sep[..c]) && AllSpace(sep[c + 1..])
  {
    c := IndexOf(sep, ',');
    CountSplit(sep, c, ',');
    SepBeforeSpaces(sep, c);
    SepAfterSpaces(sep, c);
    SliceAroundRight(sep, c);
  }

  lemma SepBeforeSpaces(sep: string, c: nat)
    requires c <= |sep| && (forall j :: 0 <= j < |sep| ==> SepChar(sep[j])) && ',' !in sep[..c]
    ensures AllSpace(sep[..c])
  {
    var before := sep[..c];
    forall j | 0 <= j < |before| ensures IsSpace(before[j]) {
      assert before[j] == sep[j];
    }
  }

  lemma SepAfterSpaces(sep: string, c: nat)
    requires c < |sep| && (forall j :: 0 <= j < |sep| ==> SepChar(sep[j])) && Count(sep[c + 1..], ',') == 0
    ensures AllSpace(sep[c + 1..])
  {
    var after := sep[c + 1..];
    forall j | 0 <= j < |after| ensures IsSpace(after[j]) {
      assert after[j] == sep[c + 1 + j];
    }
  }

  lemma SliceAroundRight(s: string, n: nat)
    requires n < |s|
    ensures s == s[..n] + ([s[n]] + s[n + 1..])
  {
    SliceAround(s, n);
  }

  /** The separator part of the pattern consumes exactly a separator in front of a letter. */
  lemma AfterSeparatorOf(sep: string, x: string)
    requires IsSeparator(sep) && x != [] && IsLetter(x[0])
    ensures AfterSeparator(sep + x) == x
  {
    if ',' in sep {
      var c := SeparatorParts(sep);
      var w1, w2 := sep[..c], sep[c + 1..];
      assert sep + x == w1 + ([','] + (w2 + x));
      AfterComma(w1, w2, x);
    } else {
      assert AllSpace(sep);
      AfterSpaces(sep, x);
    }
  }

  /** The suffix pattern removes everything from the leftmost index where it matches. */
  lemma LeftmostMatch(s: string, i: nat)
    requires i < |s| && SuffixMatchAt(s, i)
    requires forall m :: 0 <= m < i ==> !SuffixMatchAt(s, m)
    ensures StripLegalSuffix(s) == s[..i]
  {
  }

  /** A lower-case word with an optional period matches `WordAt` and starts with a letter. */
  lemma SuffixWithDot(w: string, dot: string)
    requires LowerWord(w)
    requires dot == [] || dot == "."
    ensures var t := w + dot;
      t != [] && IsLetter(t[0]) && WordAt(t, w)
  {
    assert (w + dot)[..|w|] == w && (w + dot)[|w|..] == dot;
    assert Lower(w) == w;
    SuffixAtWord(w + dot, w);
  }

  /** The suffix pattern matches a separator, a listed suffix and an optional period. */
  lemma MatchAtSeparator(base: string, sep: string, w: string, dot: string)
    requires IsSeparator(sep)
    requires w in LegalSuffixes
    requires dot == [] || dot == "."
    ensures SuffixMatchAt(base + sep + w + dot, |base|)
  {
    SuffixesAreLowerWords(w);
    WordAfterSeparator(base, sep, w, dot);
    assert WordAt(AfterSeparator((base + sep + w + dot)[|base|..]), w);
  }

  /** After a separator, a lower-case word and an optional period are what `WordAt` matches. */
  lemma WordAfterSeparator(base: string, sep: string, w: string, dot: string)
    requires IsSeparator(sep) && LowerWord(w)
    requires dot == [] || dot == "."
    ensures var s := base + sep + w + dot;
      AfterSeparator(s[|base|..]) == w + dot && WordAt(w + dot, w)
  {
    var t := w + dot;
    var s := base + sep + w + dot;
    assert s == base + (sep + t);
    assert s[|base|..] == sep + t;
    SuffixWithDot(w, dot);
    AfterSeparatorOf(sep, t);
  }

  /**
   * No match starts at or before a non-separator character that has a
   * separator character somewhere after it.
   */
  lemma NoMatchBeforeBarrier(s: string, m: nat, p: nat, q: nat)
    requires s != [] && !IsSpace(s[|s| - 1])
    requires m <= p < q < |s| && !SepChar(s[p]) && SepChar(s[q])
    ensures !SuffixMatchAt(s, m)
  {
    MatchShape(s, m);
  }

  /** The characters of the joined name on either side of the separator's end. */
  lemma JoinedChars(base: string, sep: string, w: string, dot: string)
    requires base != [] && sep != [] && LowerWord(w)
    requires dot == [] || dot == "."
    ensures var s := base + sep + w + dot;
      && |base| + |sep| < |s|
      && s[|base| - 1] == base[|base| - 1]
      && s[|base| + |sep| - 1] == sep[|sep| - 1]
      && s[|s| - 1] == (if dot == [] then w[|w| - 1] else '.')
  {
  }

  /** Nothing inside the name itself starts a match once a separator follows it. */
  lemma NoMatchInBase(base: string, sep: string, w: string, dot: string, m: nat)
    requires base != [] && !SepChar(base[|base| - 1])
    requires IsSeparator(sep)
    requires LowerWord(w)
    requires dot == [] || dot == "."
    requires m < |base|
    ensures !SuffixMatchAt(base + sep + w + dot, m)
  {
    JoinedChars(base, sep, w, dot);
    NoMatchBeforeBarrier(base + sep + w + dot, m, |base| - 1, |base| + |sep| - 1);
  }

  /**
   * A name, a separator (whitespace around at most one comma), one listed
   * suffix and an optional period: the suffix pattern strips exactly the
   * separator, the suffix and the period, and nothing of the name.
   */
  lemma StripsOneSuffix(base: string, sep: string, w: string, dot: string)
    requires base != [] && !SepChar(base[|base| - 1])
    requires IsSeparator(sep)
    requires w in LegalSuffixes
    requires dot == [] || dot == "."
    ensures StripLegalSuffix(base + sep + w + dot) == base
  {
    MatchAtSeparator(base, sep, w, dot);
    SuffixesAreLowerWords(w);
    NoMatchInName(base, sep, w, dot);
    LongerThanBase(base, sep, w, dot);
    BaseIsPrefix(base, sep, w, dot);
    StripAtName(base + sep + w + dot, base);
  }

  lemma LongerThanBase(base: string, sep: string, w: string, dot: string)
    requires w != []
    ensures |base| < |base + sep + w + dot|
  {
  }

  lemma BaseIsPrefix(base: string, sep: string, w: string, dot: string)
    ensures (base + sep + w + dot)[..|base|] == base
  {
  }

  /** Where the pattern first matches right after `base`, a prefix of `s`, stripping leaves `base`. */
  lemma StripAtName(s: string, base: string)
    requires |base| < |s| && s[..|base|] == base
    requires SuffixMatchAt(s, |base|)
    requires forall m :: 0 <= m < |base| ==> !SuffixMatchAt(s, m)
    ensures StripLegalSuffix(s) == base
  {
    LeftmostMatch(s, |base|);
  }

  lemma NoMatchInName(base: string, sep: string, w: string, dot: string)
    requires base != [] && !SepChar(base[|base| - 1])
    requires IsSeparator(sep) && LowerWord(w)
    requires dot == [] || dot == "."
    ensures forall m :: 0 <= m < |base| ==> !SuffixMatchAt(base + sep + w + dot, m)
  {
    forall m | 0 <= m < |base| ensures !SuffixMatchAt(base + sep + w + dot, m) {
      NoMatchInBase(base, sep, w, dot, m);
    }
  }

  /** In text without whitespace or periods, `\.?\s*$` matches from index `n` only at the end. */
  lemma DotThenSpacesInWord(t: string, n: nat)
    requires n <= |t|
    requires forall j :: 0 <= j < |t| ==> !SepChar(t[j]) && t[j] != '.'
    ensures DotThenSpaces(t[n..]) ==> n == |t|
  {
    if n < |t| {
      assert t[n..][0] == t[n];
    }
  }

  /**
   * A match from index `m` where the rest of the string holds no separator
   * and no period happens exactly when that rest, lower-cased, is a listed
   * suffix. This is why the pattern also cuts suffixes off inside a word.
   */
  lemma SuffixMatchInWord(s: string, m: nat)
    requires m < |s|
    requires forall j :: m <= j < |s| ==> !SepChar(s[j]) && s[j] != '.'
    ensures SuffixMatchAt(s, m) <==> Lower(s[m..]) in LegalSuffixes
  {
    var t := s[m..];
    assert t[0] == s[m];
    SkipNoSpace(t);
    assert AfterSeparator(t) == t;
    if SuffixMatchAt(s, m) {
      var w :| w in LegalSuffixes && WordAt(t, w);
      WordMatchIsSuffix(t, w);
    }
    if Lower(t) in LegalSuffixes {
      assert t[..|t|] == t && t[|t|..] == [];
      SuffixAtWord(t, Lower(t));
    }
  }

  /** Within a word, `WordAt` holds only for the whole word. */
  lemma WordMatchIsSuffix(t: string, w: string)
    requires WordAt(t, w)
    requires forall j :: 0 <= j < |t| ==> !SepChar(t[j]) && t[j] != '.'
    ensures Lower(t) == w
  {
    var n := |w|;
    DotThenSpacesInWord(t, n);
    assert t[..n] == t;
  }

  // --- Consequences for whole names -----------------------------------

  /** A name with no listed suffix at its end is only lower-cased, de-punctuated and re-spaced. */
  lemma NoSuffixOnlyCleans(name: string)
    requires !EndsWithLegalSuffix(Strip(Lower(name)))
    ensures NormalizeText(name) == JoinSpace(Split(PunctuationToSpace(Strip(Lower(name)))))
  {
    NoLegalSuffixKept(Strip(Lower(name)));
  }

  /** A separator made of one comma and one space. */
  lemma CommaSpaceIsSeparator()
    ensures IsSeparator(", ")
  {
    assert Count(", ", ',') == 1 by {
      assert ", "[1..] == " ";
      assert Count(" ", ',') == 0;
    }
  }

  lemma SpaceIsSeparator()
    ensures IsSeparator(" ")
  {
    assert Count(" ", ',') == 0;
  }

  /** A lower-case word run that is already a key splits and joins to itself. */
  lemma CleanKeyFixed(s: string)
    requires LowerWords(s)
    ensures JoinSpace(Split(PunctuationToSpace(s))) == s
  {
    assert PunctuationToSpace(s) == s;
    SplitJoinFixed(s);
  }

  /** The key of a name, given what each normalisation step produces. */
  lemma KeyFromSteps(name: string, trimmed: string, base: string)
    requires name != [] && Strip(Lower(name)) == trimmed && StripLegalSuffix(trimmed) == base
    requires LowerWords(base)
    ensures NormalizeForMatching(Some(name)) == base
  {
    CleanKeyFixed(base);
  }

  /** Text of lower-case letters and single inner spaces, as every example key is. */
  predicate LowerWords(s: string) {
    && Trimmed(s) && NoDoubleSpace(s) && OnlyPlainSpaces(s)
    && forall i :: 0 <= i < |s| ==> s[i] == ' ' || IsLower(s[i])
  }

  lemma AcmeTruckingWords()
    ensures LowerWords("acme trucking")
  {
  }

  lemma LowerWithoutUpper(s: string)
    requires forall i :: 0 <= i < |s| ==> !IsUpper(s[i])
    ensures Lower(s) == s
  {
  }

  lemma StripTrimmed(s: string)
    requires Trimmed(s)
    ensures Strip(s) == s
  {
    SkipNoSpace(s);
  }

  lemma AcmeCommaLowered()
    ensures Strip(Lower("Acme Trucking, LLC.")) == "acme trucking, llc."
  {
    assert Lower("Acme Trucking, LLC.") == "acme trucking, llc.";
    StripTrimmed("acme trucking, llc.");
  }

  lemma AcmeCommaStripped()
    ensures StripLegalSuffix("acme trucking, llc.") == "acme trucking"
  {
    CommaSpaceIsSeparator();
    assert "acme trucking" + ", " + "llc" + "." == "acme trucking, llc.";
    StripsOneSuffix("acme trucking", ", ", "llc", ".");
  }

  /** "Acme Trucking, LLC." gives the key "acme trucking". */
  lemma AcmeTruckingCommaExample()
    ensures NormalizeForMatching(Some("Acme Trucking, LLC.")) == "acme trucking"
  {
    AcmeCommaLowered();
    AcmeCommaStripped();
    AcmeTruckingWords();
    KeyFromSteps("Acme Trucking, LLC.", "acme trucking, llc.", "acme trucking");
  }

  lemma AcmePlainLowered()
    ensures Strip(Lower("acme trucking llc")) == "acme trucking llc"
  {
    LowerWithoutUpper("acme trucking llc");
    StripTrimmed("acme trucking llc");
  }

  lemma AcmePlainStripped()
    ensures StripLegalSuffix("acme trucking llc") == "acme trucking"
  {
    SpaceIsSeparator();
    assert "acme trucking" + " " + "llc" + "" == "acme trucking llc";
    StripsOneSuffix("acme trucking", " ", "llc", "");
  }

  /** "acme trucking llc" gives the same key as "Acme Trucking, LLC.". */
  lemma AcmeTruckingPlainExample()
    ensures NormalizeForMatching(Some("acme trucking llc")) == "acme trucking"
    ensures NormalizeForMatching(Some("acme trucking llc")) == NormalizeForMatching(Some("Acme Trucking, LLC."))
  {
    AcmePlainLowered();
    AcmePlainStripped();
    AcmeTruckingWords();
    KeyFromSteps("acme trucking llc", "acme trucking llc", "acme trucking");
    AcmeTruckingCommaExample();
  }

  lemma AcmeCoInWords()
    ensures LowerWords("acme co") && LowerWords("acme")
  {
  }

  lemma AcmeCoIncStripped()
    ensures StripLegalSuffix("acme co inc") == "acme co"
  {
    SpaceIsSeparator();
    assert "acme co" + " " + "inc" + "" == "acme co inc";
    StripsOneSuffix("acme co", " ", "inc", "");
  }

  lemma AcmeCoStripped()
    ensures StripLegalSuffix("acme co") == "acme"
  {
    SpaceIsSeparator();
    assert "acme" + " " + "co" + "" == "acme co";
    StripsOneSuffix("acme", " ", "co", "");
  }

  /**
   * Normalising is not idempotent: one pass removes only the last suffix,
   * so a key can itself still end with a listed suffix.
   */
  lemma NotIdempotent()
    ensures NormalizeForMatching(Some("acme co inc")) == "acme co"
    ensures NormalizeForMatching(Some("acme co")) == "acme"
    ensures NormalizeForMatching(Some(NormalizeForMatching(Some("acme co inc")))) != NormalizeForMatching(Some("acme co inc"))
  {
    AcmeCoIncKey();
    AcmeCoKey();
  }

  lemma AcmeCoIncKey()
    ensures NormalizeForMatching(Some("acme co inc")) == "acme co"
  {
    LowerWithoutUpper("acme co inc");
    StripTrimmed("acme co inc");
    AcmeCoIncStripped();
    AcmeCoInWords();
    KeyFromSteps("acme co inc", "acme co inc", "acme co");
  }

  lemma AcmeCoKey()
    ensures NormalizeForMatching(Some("acme co")) == "acme"
  {
    LowerWithoutUpper("acme co");
    StripTrimmed("acme co");
    AcmeCoStripped();
    AcmeCoInWords();
    KeyFromSteps("acme co", "acme co", "acme");
  }

  /** No separator and no period anywhere in "taco". */
  lemma TacoIsOneWord(s: string)
    requires s == "taco"
    ensures forall j :: 0 <= j < |s| ==> !SepChar(s[j]) && s[j] != '.'
  {
  }

  lemma TacoMatches(s: string)
    requires s == "taco"
    ensures !SuffixMatchAt(s, 0) && !SuffixMatchAt(s, 1) && SuffixMatchAt(s, 2)
  {
    TacoFrom(s, 0);
    TacoFrom(s, 1);
    TacoFrom(s, 2);
  }

  /** In "taco" the suffix pattern matches from index 2 ("co") and from no earlier index. */
  lemma TacoFrom(s: string, m: nat)
    requires s == "taco" && m <= 2
    ensures SuffixMatchAt(s, m) <==> m == 2
  {
    TacoIsOneWord(s);
    SuffixMatchInWord(s, m);
    var t := s[m..];
    LowerWithoutUpper(t);
    TacoTailsListed();
    assert t == if m == 0 then "taco" else if m == 1 then "aco" else "co";
  }

  lemma TacoTailsListed()
    ensures "taco" !in LegalSuffixes && "aco" !in LegalSuffixes && "co" in LegalSuffixes
  {
    assert LegalSuffixes[5] == "co";
  }

  lemma TacoStripped(s: string)
    requires s == "taco"
    ensures StripLegalSuffix(s) == "ta"
  {
    assert StripLegalSuffix(s) == s[..2] by {
      TacoMatches(s);
      assert forall m :: 0 <= m < 2 ==> !SuffixMatchAt(s, m);
      LeftmostMatch(s, 2);
    }
    TaPrefix(s);
  }

  lemma TaPrefix(s: string)
    requires s == "taco"
    ensures s[..2] == "ta"
  {
  }

  lemma TaWords()
    ensures LowerWords("ta")
  {
  }

  /** The suffix pattern has no word boundary: "taco" loses its "co". */
  lemma NoWordBoundary()
    ensures NormalizeForMatching(Some("taco")) == "ta"
  {
    LowerWithoutUpper("taco");
    StripTrimmed("taco");
    TacoStripped("taco");
    TaWords();
    KeyFromSteps("taco", "taco", "ta");
  }
}
