/**
 * The few pieces of Python's `str` type and `re` module that the cleaning
 * and matching code relies on, restricted to ASCII.
 *
 * A character is whitespace (`\s`, `str.isspace`, `str.strip`, `str.split`)
 * when its code is 9 to 13, 28 to 31 or 32; a word character (`\w`) is an
 * ASCII letter, a digit or `_`. Characters outside ASCII are treated as
 * neither letters, digits nor whitespace.
 */
module PyStr {

  predicate IsSpace(c: char) {
    var n := c as int;
    n == 32 || 9 <= n <= 13 || 28 <= n <= 31
  }

  predicate IsUpper(c: char) { 'A' <= c <= 'Z' }

  predicate IsLower(c: char) { 'a' <= c <= 'z' }

  predicate IsLetter(c: char) { IsUpper(c) || IsLower(c) }

  predicate IsDigit(c: char) { '0' <= c <= '9' }

  /** `\w` */
  predicate IsWordChar(c: char) { IsLetter(c) || IsDigit(c) || c == '_' }

  function ToLower(c: char): (d: char)
    ensures !IsUpper(d)
    ensures IsLetter(d) <==> IsLetter(c)
    ensures !IsUpper(c) ==> d == c
  {
    if IsUpper(c) then (c as int + 32) as char else c
  }

  function ToUpper(c: char): (d: char)
    ensures !IsLower(d)
    ensures IsLetter(d) <==> IsLetter(c)
    ensures !IsLower(c) ==> d == c
    ensures ToLower(d) == ToLower(c)
  {
    if IsLower(c) then (c as int - 32) as char else c
  }

  /** Every character of `s` satisfies `p`. */
  predicate All(s: string, p: char -> bool) {
    forall i :: 0 <= i < |s| ==> p(s[i])
  }

  predicate NoSpace(s: string) {
    forall i :: 0 <= i < |s| ==> !IsSpace(s[i])
  }

  predicate AllSpace(s: string) {
    forall i :: 0 <= i < |s| ==> IsSpace(s[i])
  }

  /** Neither the first nor the last character is whitespace. */
  predicate Trimmed(s: string) {
    s == [] || (!IsSpace(s[0]) && !IsSpace(s[|s| - 1]))
  }

  /** No two consecutive characters are both whitespace. */
  predicate NoDoubleSpace(s: string) {
    forall i :: 0 <= i < |s| - 1 ==> !(IsSpace(s[i]) && IsSpace(s[i + 1]))
  }

  /** The only whitespace character that occurs is the plain space. */
  predicate OnlyPlainSpaces(s: string) {
    forall i :: 0 <= i < |s| && IsSpace(s[i]) ==> s[i] == ' '
  }

  /** `str.lower()` */
  function Lower(s: string): (r: string)
    ensures |r| == |s|
  {
    seq(|s|, i requires 0 <= i < |s| => ToLower(s[i]))
  }

  /**
   * A letter is upper-case exactly when it starts a run of letters; this is
   * what `str.title()` produces on ASCII text.
   */
  predicate IsTitleCased(s: string) {
    forall i :: 0 <= i < |s| && IsLetter(s[i]) ==> (IsUpper(s[i]) <==> (i == 0 || !IsLetter(s[i - 1])))
  }

  /** `str.title()`: a cased character is upper-cased iff the one before it is not cased. */
  function Title(s: string): (r: string)
    ensures |r| == |s|
    ensures IsTitleCased(r)
    ensures forall i :: 0 <= i < |s| ==> (IsLetter(r[i]) <==> IsLetter(s[i]))
    ensures forall i :: 0 <= i < |s| && !IsLetter(s[i]) ==> r[i] == s[i]
  {
    seq(|s|, i requires 0 <= i < |s| =>
      if !IsLetter(s[i]) then s[i]
      else if i > 0 && IsLetter(s[i - 1]) then ToLower(s[i])
      else ToUpper(s[i]))
  }

  /** Title case changes only the case of letters: lower-cased, the text is the same. */
  lemma TitleLower(s: string)
    ensures Lower(Title(s)) == Lower(s)
  {
  }

  /** `str.lstrip()`: drop the leading whitespace. */
  function SkipSpace(s: string): (r: string)
    ensures |r| <= |s| && r == s[|s| - |r|..]
    ensures r == [] || !IsSpace(r[0])
    ensures forall j :: 0 <= j < |s| - |r| ==> IsSpace(s[j])
  {
    if s != [] && IsSpace(s[0]) then SkipSpace(s[1..]) else s
  }

  /** `str.rstrip()`: drop the trailing whitespace. */
  function RStrip(s: string): (r: string)
    ensures |r| <= |s| && r == s[..|r|]
    ensures r == [] || !IsSpace(r[|r| - 1])
    ensures forall j :: |r| <= j < |s| ==> IsSpace(s[j])
  {
    if s != [] && IsSpace(s[|s| - 1]) then RStrip(s[..|s| - 1]) else s
  }

  /** `str.strip()` */
  function Strip(s: string): (r: string)
    ensures Trimmed(r)
    ensures |r| <= |s|
    ensures r == [] <==> AllSpace(s)
  {
    var t := SkipSpace(s);
    assert AllSpace(s) ==> t == [];
    assert t != [] ==> !AllSpace(s) by { if t != [] { assert s[|s| - |t|] == t[0]; } }
    RStrip(t)
  }

  /** `re.sub(r'\s+', ' ', s)`: every run of whitespace becomes one space. */
  function CollapseSpace(s: string): (r: string)
    decreases |s|
    ensures r == [] <==> s == []
    ensures s != [] ==> (IsSpace(r[0]) <==> IsSpace(s[0]))
    ensures s != [] ==> (IsSpace(r[|r| - 1]) <==> IsSpace(s[|s| - 1]))
    ensures NoDoubleSpace(r)
    ensures OnlyPlainSpaces(r)
  {
    if s == [] then []
    else if IsSpace(s[0]) then
      var t := SkipSpace(s);
      assert t != [] ==> t[|t| - 1] == s[|s| - 1];
      " " + CollapseSpace(t)
    else
      [s[0]] + CollapseSpace(s[1..])
  }

  /** Collapsing whitespace keeps a last character that is not whitespace. */
  lemma {:induction false} CollapseKeepsLast(s: string)
    requires s != [] && !IsSpace(s[|s| - 1])
    ensures CollapseSpace(s) != [] && CollapseSpace(s)[|CollapseSpace(s)| - 1] == s[|s| - 1]
    decreases |s|
  {
    if IsSpace(s[0]) {
      var t := SkipSpace(s);
      assert t != [] && t[|t| - 1] == s[|s| - 1];
      CollapseKeepsLast(t);
    } else if |s| > 1 {
      assert s[1..][|s| - 2] == s[|s| - 1];
      CollapseKeepsLast(s[1..]);
    }
  }

  /** Length of the leading run of non-whitespace characters. */
  function WordLength(s: string): (n: nat)
    ensures n <= |s|
    ensures NoSpace(s[..n])
    ensures n < |s| ==> IsSpace(s[n])
  {
    if s == [] || IsSpace(s[0]) then 0 else 1 + WordLength(s[1..])
  }

  /** `str.split()` with no separator: the maximal runs of non-whitespace. */
  function Split(s: string): (words: seq<string>)
    decreases |s|
    ensures forall k :: 0 <= k < |words| ==> words[k] != [] && NoSpace(words[k])
  {
    var t := SkipSpace(s);
    if t == [] then []
    else
      var n := WordLength(t);
      var rest := Split(t[n..]);
      ConsWords(t[..n], rest);
      [t[..n]] + rest
  }

  lemma ConsWords(w: string, ws: seq<string>)
    requires w != [] && NoSpace(w)
    requires forall k :: 0 <= k < |ws| ==> ws[k] != [] && NoSpace(ws[k])
    ensures forall k :: 0 <= k < |[w] + ws| ==> ([w] + ws)[k] != [] && NoSpace(([w] + ws)[k])
  {
  }

  /** `' '.join(words)` */
  function JoinSpace(words: seq<string>): (r: string)
    ensures forall c :: c in r ==> c == ' ' || exists k :: 0 <= k < |words| && c in words[k]
  {
    if words == [] then []
    else if |words| == 1 then words[0]
    else words[0] + " " + JoinSpace(words[1..])
  }

  /** `s.count(c)` for a single character. */
  function Count(s: string, c: char): (n: nat)
    ensures n <= |s|
    ensures n == 0 <==> c !in s
  {
    if s == [] then 0 else (if s[0] == c then 1 else 0) + Count(s[1..], c)
  }

  /** Index of the first occurrence of `c` in `s`, which must occur. */
  function IndexOf(s: string, c: char): (i: nat)
    requires c in s
    ensures i < |s| && s[i] == c && c !in s[..i]
  {
    if s[0] == c then 0 else 1 + IndexOf(s[1..], c)
  }

  /** `s.split(c)` for a single-character separator. */
  function SplitOn(s: string, c: char): (parts: seq<string>)
    decreases |s|
    ensures |parts| == Count(s, c) + 1
    ensures forall k :: 0 <= k < |parts| ==> c !in parts[k]
  {
    if c !in s then [s]
    else
      var i := IndexOf(s, c);
      CountSplit(s, i, c);
      [s[..i]] + SplitOn(s[i + 1..], c)
  }

  /** `s.startswith(p)` */
  predicate StartsWith(s: string, p: string) {
    |p| <= |s| && s[..|p|] == p
  }

  /** The count of `c` in `s` is the count before index `i` plus the count from `i` on. */
  lemma {:induction false} CountSplit(s: string, i: nat, c: char)
    requires i < |s|
    ensures Count(s, c) == Count(s[..i], c) + (if s[i] == c then 1 else 0) + Count(s[i + 1..], c)
  {
    if i > 0 {
      CountSplit(s[1..], i - 1, c);
      assert s[1..][..i - 1] == s[1..i];
      assert s[..i][1..] == s[1..i];
      assert s[1..][i - 1 + 1..] == s[i + 1..];
    }
  }

  /** Words taken from a string whose every character satisfies `p` also satisfy `p`. */
  lemma {:induction false} SplitKeeps(s: string, p: char -> bool)
    requires All(s, p)
    ensures forall k :: 0 <= k < |Split(s)| ==> All(Split(s)[k], p)
    decreases |s|
  {
    var t := SkipSpace(s);
    if t != [] {
      var n := WordLength(t);
      var w, rest := t[..n], t[n..];
      assert All(w, p) && All(rest, p) by {
        assert forall i :: 0 <= i < |w| ==> w[i] == s[|s| - |t| + i];
        assert forall i :: 0 <= i < |rest| ==> rest[i] == s[|s| - |t| + n + i];
      }
      SplitKeeps(rest, p);
      assert Split(s) == [w] + Split(rest);
    }
  }

  /**
   * Joining non-empty words that contain no whitespace gives a trimmed string
   * whose only whitespace is single spaces between words; every other
   * character comes from a word.
   */
  lemma {:induction false} JoinShape(words: seq<string>, p: char -> bool)
    requires forall k :: 0 <= k < |words| ==> words[k] != [] && NoSpace(words[k]) && All(words[k], p)
    ensures var r := JoinSpace(words);
      Trimmed(r) && NoDoubleSpace(r) && OnlyPlainSpaces(r)
      && forall i :: 0 <= i < |r| && r[i] != ' ' ==> p(r[i])
  {
    if |words| > 1 {
      JoinShape(words[1..], p);
      var w, rest := words[0], JoinSpace(words[1..]);
      var r := w + " " + rest;
      assert rest != [] by { assert words[1..][0] != []; if |words[1..]| > 1 { } }
      forall i | 0 <= i < |r| - 1
        ensures !(IsSpace(r[i]) && IsSpace(r[i + 1]))
      {
        if i < |w| - 1 {
          assert r[i] == w[i];
        } else if i == |w| - 1 {
          assert r[i] == w[i];
        } else if i == |w| {
          assert r[i + 1] == rest[0];
        } else {
          assert r[i] == rest[i - |w| - 1] && r[i + 1] == rest[i - |w|];
        }
      }
      forall i | 0 <= i < |r| && r[i] != ' '
        ensures p(r[i]) && !IsSpace(r[i])
      {
        if i < |w| { assert r[i] == w[i]; } else { assert r[i] == rest[i - |w| - 1]; }
      }
    }
  }

  /** The leading word of `w + rest` is `w` when `w` has no whitespace and `rest` starts with some. */
  lemma {:induction false} WordLengthOf(w: string, rest: string)
    requires NoSpace(w)
    requires rest == [] || IsSpace(rest[0])
    ensures WordLength(w + rest) == |w|
  {
    if w != [] {
      assert (w + rest)[1..] == w[1..] + rest;
      WordLengthOf(w[1..], rest);
    }
  }

  /** A string that starts with a non-space splits into its leading word and the split of the rest. */
  lemma SplitFirst(t: string)
    requires t != [] && !IsSpace(t[0])
    ensures Split(t) == [t[..WordLength(t)]] + Split(t[WordLength(t)..])
  {
    assert SkipSpace(t) == t;
  }

  /** A non-empty run without whitespace is split into itself. */
  lemma SplitWord(w: string)
    requires w != [] && NoSpace(w)
    ensures Split(w) == [w]
  {
    WordLengthOf(w, []);
    assert w + [] == w;
    SplitFirst(w);
    assert w[|w|..] == [];
    assert w[..|w|] == w;
  }

  /** Leading whitespace does not change the split. */
  lemma SplitSkip(s: string)
    ensures Split(s) == Split(SkipSpace(s))
  {
    var t := SkipSpace(s);
    assert SkipSpace(t) == t;
  }

  /** Splitting a word, a space and a string that starts with a non-space peels off the word. */
  lemma SplitWordSpace(w: string, tail: string)
    requires w != [] && NoSpace(w)
    requires tail != [] && !IsSpace(tail[0])
    ensures Split(w + " " + tail) == [w] + Split(tail)
  {
    var s := w + (" " + tail);
    assert s == w + " " + tail;
    WordLengthOf(w, " " + tail);
    SplitFirst(s);
    assert s[..|w|] == w && s[|w|..] == " " + tail;
    assert SkipSpace(" " + tail) == tail by { assert (" " + tail)[1..] == tail; }
    SplitSkip(" " + tail);
  }

  /** Splitting and re-joining a string that is already single-spaced and trimmed changes nothing. */
  lemma {:induction false} SplitJoinFixed(s: string)
    requires Trimmed(s) && NoDoubleSpace(s) && OnlyPlainSpaces(s)
    ensures JoinSpace(Split(s)) == s
    decreases |s|
  {
    if s != [] {
      var n := WordLength(s);
      if n == |s| {
        assert s[..n] == s;
        SplitWord(s);
      } else {
        var w, tail := s[..n], s[n + 1..];
        FixedAfterWord(s, n);
        SplitJoinFixed(tail);
        SliceAround(s, n);
        SplitWordSpace(w, tail);
        SplitNonEmpty(tail);
        var ws := [w] + Split(tail);
        assert ws[0] == w && ws[1..] == Split(tail) && |ws| > 1;
      }
    }
  }

  /** In a single-spaced trimmed string, a first word that is not all of it is followed by one space and a tail of the same kind. */
  lemma FixedAfterWord(s: string, n: nat)
    requires Trimmed(s) && NoDoubleSpace(s) && OnlyPlainSpaces(s)
    requires s != [] && n == WordLength(s) && n < |s|
    ensures n + 1 < |s| && s[n] == ' ' && s[..n] != []
    ensures var tail := s[n + 1..];
      tail != [] && Trimmed(tail) && NoDoubleSpace(tail) && OnlyPlainSpaces(tail)
  {
    assert n + 1 < |s| && s[n] == ' ' && s[..n] != [] by {
      assert !IsSpace(s[|s| - 1]) && !IsSpace(s[0]);
    }
    var tail := s[n + 1..];
    assert tail[0] == s[n + 1] && tail[|tail| - 1] == s[|s| - 1];
    forall i | 0 <= i < |tail| - 1 ensures !(IsSpace(tail[i]) && IsSpace(tail[i + 1])) {
      assert tail[i] == s[n + 1 + i] && tail[i + 1] == s[n + 2 + i];
    }
    forall i | 0 <= i < |tail| && IsSpace(tail[i]) ensures tail[i] == ' ' {
      assert tail[i] == s[n + 1 + i];
    }
  }

  lemma SliceAround(s: string, n: nat)
    requires n < |s|
    ensures s == s[..n] + [s[n]] + s[n + 1..]
  {
  }

  lemma SplitNonEmpty(s: string)
    requires s != [] && !IsSpace(s[0])
    ensures Split(s) != []
  {
    assert SkipSpace(s) == s;
  }

  /** Stripping keeps a property every character has. */
  lemma StripKeeps(s: string, p: char -> bool)
    requires All(s, p)
    ensures All(Strip(s), p)
  {
    var t := SkipSpace(s);
    var r := RStrip(t);
    assert forall i :: 0 <= i < |r| ==> r[i] == s[|s| - |t| + i];
  }

  /** The characters of `s` that are not whitespace, in order. */
  function NonSpace(s: string): (r: string)
    ensures |r| <= |s|
  {
    if s == [] then []
    else (if IsSpace(s[0]) then [] else [s[0]]) + NonSpace(s[1..])
  }

  lemma {:induction false} NonSpaceAppend(a: string, b: string)
    ensures NonSpace(a + b) == NonSpace(a) + NonSpace(b)
    decreases |a|
  {
    if a == [] {
      assert a + b == b;
    } else {
      assert (a + b)[0] == a[0];
      assert (a + b)[1..] == a[1..] + b;
      NonSpaceAppend(a[1..], b);
    }
  }

  lemma {:induction false} NonSpaceOfSpaces(s: string)
    requires AllSpace(s)
    ensures NonSpace(s) == []
    decreases |s|
  {
    if s != [] {
      NonSpaceOfSpaces(s[1..]);
    }
  }

  /** Dropping leading whitespace keeps the non-whitespace characters. */
  lemma NonSpaceSkip(s: string)
    ensures NonSpace(SkipSpace(s)) == NonSpace(s)
  {
    var t := SkipSpace(s);
    var w := s[..|s| - |t|];
    assert s == w + t;
    assert AllSpace(w);
    NonSpaceAppend(w, t);
    NonSpaceOfSpaces(w);
  }

  /** Dropping trailing whitespace keeps the non-whitespace characters. */
  lemma NonSpaceRStrip(s: string)
    ensures NonSpace(RStrip(s)) == NonSpace(s)
  {
    var t := RStrip(s);
    var w := s[|t|..];
    assert s == t + w;
    assert AllSpace(w) by {
      forall j | 0 <= j < |w| ensures IsSpace(w[j]) {
        assert w[j] == s[|t| + j];
      }
    }
    NonSpaceAppend(t, w);
    NonSpaceOfSpaces(w);
  }

  /** `str.strip()` keeps the non-whitespace characters. */
  lemma NonSpaceStrip(s: string)
    ensures NonSpace(Strip(s)) == NonSpace(s)
  {
    NonSpaceSkip(s);
    NonSpaceRStrip(SkipSpace(s));
  }

  /** Collapsing whitespace runs keeps the non-whitespace characters. */
  lemma {:induction false} NonSpaceCollapse(s: string)
    ensures NonSpace(CollapseSpace(s)) == NonSpace(s)
    decreases |s|
  {
    if s != [] {
      if IsSpace(s[0]) {
        var t := SkipSpace(s);
        NonSpaceCollapse(t);
        NonSpaceSkip(s);
        var r := " " + CollapseSpace(t);
        assert r[0] == ' ' && r[1..] == CollapseSpace(t);
      } else {
        NonSpaceCollapse(s[1..]);
        var r := [s[0]] + CollapseSpace(s[1..]);
        assert r[0] == s[0] && r[1..] == CollapseSpace(s[1..]);
      }
    }
  }

  /** Lower-casing and dropping whitespace commute. */
  lemma {:induction false} NonSpaceLower(s: string)
    ensures NonSpace(Lower(s)) == Lower(NonSpace(s))
    decreases |s|
  {
    if s != [] {
      var l := Lower(s);
      assert l[0] == ToLower(s[0]);
      assert l[1..] == Lower(s[1..]);
      NonSpaceLower(s[1..]);
      assert IsSpace(l[0]) <==> IsSpace(s[0]);
      var head := if IsSpace(s[0]) then [] else [s[0]];
      LowerAppend(head, NonSpace(s[1..]));
    }
  }

  lemma LowerAppend(a: string, b: string)
    ensures Lower(a + b) == Lower(a) + Lower(b)
  {
  }

  /** A character is in the non-whitespace characters exactly when it is in the text. */
  lemma {:induction false} NonSpaceHas(s: string, c: char)
    requires !IsSpace(c)
    ensures c in NonSpace(s) <==> c in s
    decreases |s|
  {
    if s != [] {
      NonSpaceHas(s[1..], c);
      assert s == [s[0]] + s[1..];
    }
  }

  // ---------------------------------------------------------------------
  // Word structure: what `split()` sees
  // ---------------------------------------------------------------------

  /** Whitespace only: no words. */
  lemma SplitOfSpaces(w: string)
    requires AllSpace(w)
    ensures Split(w) == []
  {
    var r := SkipSpace(w);
    if r != [] {
      assert r[0] == w[|w| - |r|];
    }
  }

  /** A leading whitespace character does not change the split. */
  lemma SplitSpaceCons(x: string)
    requires x != [] && IsSpace(x[0])
    ensures Split(x) == Split(x[1..])
  {
    assert SkipSpace(x) == SkipSpace(x[1..]);
  }

  /** A word followed by whitespace or the end is the first word. */
  lemma SplitAtWord(w: string, rest: string)
    requires w != [] && NoSpace(w)
    requires rest == [] || IsSpace(rest[0])
    ensures Split(w + rest) == [w] + Split(rest)
  {
    AppendParts(w, rest);
    WordLengthOf(w, rest);
    SplitFirst(w + rest);
  }

  lemma AppendParts(w: string, rest: string)
    ensures (w + rest)[..|w|] == w && (w + rest)[|w|..] == rest
    ensures w != [] ==> (w + rest)[0] == w[0]
  {
  }

  /** A non-whitespace character in front of a word joins that word. */
  lemma SplitWordJoin(c: char, y: string)
    requires !IsSpace(c)
    requires y != [] && !IsSpace(y[0])
    ensures Split(y) != []
    ensures Split([c] + y) == [[c] + Split(y)[0]] + Split(y)[1..]
  {
    SplitFirst(y);
    SplitConsWord(c, y);
  }

  lemma SplitConsWord(c: char, y: string)
    requires !IsSpace(c)
    requires y != [] && !IsSpace(y[0])
    ensures Split([c] + y) == [[c] + y[..WordLength(y)]] + Split(y[WordLength(y)..])
  {
    var m := WordLength(y);
    var w := y[..m];
    var rest := y[m..];
    assert [c] + y == ([c] + w) + rest;
    NoSpaceCons(c, w);
    SplitAtWord([c] + w, rest);
  }

  lemma NoSpaceCons(c: char, w: string)
    requires !IsSpace(c) && NoSpace(w)
    ensures NoSpace([c] + w)
  {
  }

  /**
   * A leading non-whitespace character is a word of its own when whitespace
   * or the end follows it, and otherwise starts the first word of the rest.
   */
  lemma SplitWordCons(x: string)
    requires x != [] && !IsSpace(x[0])
    ensures x[1..] == [] || IsSpace(x[1]) ==> Split(x) == [[x[0]]] + Split(x[1..])
    ensures x[1..] != [] && !IsSpace(x[1]) ==>
      Split(x[1..]) != [] && Split(x) == [[x[0]] + Split(x[1..])[0]] + Split(x[1..])[1..]
  {
    var y := x[1..];
    assert x == [x[0]] + y;
    if y == [] || IsSpace(y[0]) {
      SplitAtWord([x[0]], y);
    } else {
      SplitWordJoin(x[0], y);
    }
  }

  /** Whitespace at the end does not change the split. */
  lemma {:induction false} SplitAppendSpaces(x: string, w: string)
    requires AllSpace(w)
    ensures Split(x + w) == Split(x)
    decreases |x|
  {
    if x == [] {
      assert x + w == w;
      SplitOfSpaces(w);
    } else {
      var xw := x + w;
      assert xw[0] == x[0] && xw[1..] == x[1..] + w;
      SplitAppendSpaces(x[1..], w);
      if IsSpace(x[0]) {
        SplitSpaceCons(xw);
        SplitSpaceCons(x);
      } else {
        SplitWordCons(xw);
        SplitWordCons(x);
        if x[1..] != [] {
          assert xw[1] == x[1];
        } else {
          assert xw[1..] == w;
        }
      }
    }
  }

  /** What `RStrip` cuts off is whitespace. */
  lemma RStripTail(t: string)
    ensures AllSpace(t[|RStrip(t)|..])
  {
    var r := RStrip(t);
    var w := t[|r|..];
    forall j | 0 <= j < |w| ensures IsSpace(w[j]) {
      assert w[j] == t[|r| + j];
    }
  }

  /** Whitespace cut from the right end does not change the split. */
  lemma SplitRStrip(t: string)
    ensures Split(RStrip(t)) == Split(t)
  {
    var r := RStrip(t);
    var w := t[|r|..];
    RStripTail(t);
    assert t == r + w;
    SplitAppendSpaces(r, w);
  }

  /** `s.strip().split() == s.split()`: stripping the ends keeps the words. */
  lemma SplitStrip(s: string)
    ensures Split(Strip(s)) == Split(s)
  {
    SplitSkip(s);
    SplitRStrip(SkipSpace(s));
  }

  /**
   * `strip()` cuts whitespace from the two ends and nothing else: the result
   * is a slice of the input with only whitespace before and after it.
   */
  lemma StripSlice(s: string)
    ensures exists k :: (0 <= k <= |s| - |Strip(s)| && Strip(s) == s[k..k + |Strip(s)|]
                         && AllSpace(s[..k]) && AllSpace(s[k + |Strip(s)|..]))
  {
    StripOfTail(s);
    SliceWitness(s, SkipSpace(s), Strip(s));
  }

  /** `strip()` is the `rstrip()` of the `lstrip()`ped tail. */
  lemma StripOfTail(s: string)
    ensures |Strip(s)| <= |SkipSpace(s)| && Strip(s) == SkipSpace(s)[..|Strip(s)|]
    ensures forall j :: |Strip(s)| <= j < |SkipSpace(s)| ==> IsSpace(SkipSpace(s)[j])
  {
  }

  /** A part `r` of a tail `t` of `s`, with only whitespace around it, is a slice of `s`. */
  lemma SliceWitness(s: string, t: string, r: string)
    requires |t| <= |s| && t == s[|s| - |t|..] && (forall j :: 0 <= j < |s| - |t| ==> IsSpace(s[j]))
    requires |r| <= |t| && r == t[..|r|] && (forall j :: |r| <= j < |t| ==> IsSpace(t[j]))
    ensures exists k :: (0 <= k <= |s| - |r| && r == s[k..k + |r|] && AllSpace(s[..k]) && AllSpace(s[k + |r|..]))
  {
    var k := |s| - |t|;
    TakeSpaces(s, k);
    DropTake(s, k, |r|);
    DropSpaces(s, k, |r|);
    assert 0 <= k <= |s| - |r| && r == s[k..k + |r|] && AllSpace(s[..k]) && AllSpace(s[k + |r|..]);
  }

  lemma TakeSpaces(s: string, k: nat)
    requires k <= |s| && forall j :: 0 <= j < k ==> IsSpace(s[j])
    ensures AllSpace(s[..k])
  {
    assert forall j :: 0 <= j < k ==> s[..k][j] == s[j];
  }

  lemma DropTake(s: string, k: nat, m: nat)
    requires k + m <= |s|
    ensures s[k..][..m] == s[k..k + m]
  {
  }

  lemma DropSpaces(s: string, k: nat, m: nat)
    requires k + m <= |s| && forall j :: m <= j < |s[k..]| ==> IsSpace(s[k..][j])
    ensures AllSpace(s[k + m..])
  {
    var w := s[k + m..];
    forall j | 0 <= j < |w| ensures IsSpace(w[j]) {
      assert w[j] == s[k..][m + j];
    }
  }

  /**
   * `re.sub(r'\s+', ' ', s).split() == s.split()`: each whitespace run
   * becomes one space, never none, so the words are the same.
   */
  lemma {:induction false} SplitCollapse(s: string)
    ensures Split(CollapseSpace(s)) == Split(s)
    decreases |s|
  {
    if s != [] {
      var r := CollapseSpace(s);
      if IsSpace(s[0]) {
        var t := SkipSpace(s);
        assert t == SkipSpace(s[1..]);
        assert r[1..] == CollapseSpace(t);
        SplitSpaceCons(r);
        SplitCollapse(t);
        SplitSkip(s);
      } else {
        var y := s[1..];
        assert r[0] == s[0] && r[1..] == CollapseSpace(y);
        SplitWordCons(r);
        SplitWordCons(s);
        SplitCollapse(y);
        if y != [] {
          assert r[1] == CollapseSpace(y)[0] && s[1] == y[0];
        }
      }
    }
  }

  /** Each word lower-cased. */
  function LowerEach(words: seq<string>): seq<string> {
    seq(|words|, k requires 0 <= k < |words| => Lower(words[k]))
  }

  lemma LowerCons(s: string)
    requires s != []
    ensures Lower(s)[0] == ToLower(s[0]) && Lower(s)[1..] == Lower(s[1..])
    ensures IsSpace(Lower(s)[0]) <==> IsSpace(s[0])
  {
  }

  lemma LowerOne(c: char)
    ensures Lower([c]) == [ToLower(c)]
  {
  }

  lemma LowerEachCons(w: string, ws: seq<string>)
    ensures LowerEach([w] + ws) == [Lower(w)] + LowerEach(ws)
  {
  }

  /** Lower-casing a non-space character and the first word after it. */
  lemma SplitLowerWord(s: string)
    requires s != [] && !IsSpace(s[0])
    requires Split(Lower(s[1..])) == LowerEach(Split(s[1..]))
    ensures Split(Lower(s)) == LowerEach(Split(s))
  {
    var l := Lower(s);
    var y := s[1..];
    LowerCons(s);
    SplitWordCons(l);
    SplitWordCons(s);
    LowerOne(s[0]);
    if y != [] {
      LowerCons(y);
      assert l[1] == Lower(y)[0] && s[1] == y[0];
    }
    var ws := Split(y);
    if y != [] && !IsSpace(y[0]) {
      LowerAppend([s[0]], ws[0]);
      LowerEachCons(ws[0], ws[1..]);
      assert ws == [ws[0]] + ws[1..];
      LowerEachCons([s[0]] + ws[0], ws[1..]);
    } else {
      LowerEachCons([s[0]], ws);
    }
  }

  /** `s.lower().split()` is `[w.lower() for w in s.split()]`: lower-casing moves no word boundary. */
  lemma {:induction false} SplitLower(s: string)
    ensures Split(Lower(s)) == LowerEach(Split(s))
    decreases |s|
  {
    if s == [] {
      assert Lower(s) == [];
      assert Split(s) == [];
      assert LowerEach([]) == [];
    } else {
      SplitLower(s[1..]);
      LowerCons(s);
      if IsSpace(s[0]) {
        var l := Lower(s);
        SplitSpaceCons(l);
        assert Split(l) == Split(l[1..]);
        assert l[1..] == Lower(s[1..]);
        assert Split(l) == Split(Lower(s[1..]));
        SplitSpaceCons(s);
        assert Split(s) == Split(s[1..]);
      } else {
        SplitLowerWord(s);
        assert Split(Lower(s)) == LowerEach(Split(s));
      }
    }
  }

  lemma JoinStarts(words: seq<string>)
    requires words != [] && words[0] != []
    ensures JoinSpace(words) != [] && JoinSpace(words)[0] == words[0][0]
  {
  }

  /** `' '.join(words).split() == words` for non-empty words without whitespace. */
  lemma {:induction false} SplitJoin(words: seq<string>)
    requires forall k :: 0 <= k < |words| ==> words[k] != [] && NoSpace(words[k])
    ensures Split(JoinSpace(words)) == words
    decreases |words|, 1
  {
    if |words| == 1 {
      SplitWord(words[0]);
    } else if |words| > 1 {
      SplitJoinMany(words);
    }
  }

  /** The step of `SplitJoin` for two words or more. */
  lemma {:induction false} SplitJoinMany(words: seq<string>)
    requires |words| > 1
    requires forall k :: 0 <= k < |words| ==> words[k] != [] && NoSpace(words[k])
    ensures Split(JoinSpace(words)) == words
    decreases |words|, 0
  {
    var rest := words[1..];
    SplitJoin(rest);
    JoinStarts(rest);
    SplitWordSpace(words[0], JoinSpace(rest));
    HeadRest(words);
  }

  lemma HeadRest(words: seq<string>)
    requires words != []
    ensures words == [words[0]] + words[1..]
  {
  }

  // ---------------------------------------------------------------------
  // Facts about the ends of a string
  // ---------------------------------------------------------------------

  /** Whitespace only: `lstrip` leaves nothing. */
  lemma SkipAllSpace(s: string)
    requires AllSpace(s)
    ensures SkipSpace(s) == []
  {
  }

  /** Whitespace only: `rstrip` leaves nothing. */
  lemma RStripAllSpace(s: string)
    requires AllSpace(s)
    ensures RStrip(s) == []
  {
  }

  /** `lstrip` of text that is not all whitespace stops inside it. */
  lemma {:induction false} SkipSpaceAppend(x: string, y: string)
    requires !AllSpace(x)
    ensures SkipSpace(x) != [] && SkipSpace(x + y) == SkipSpace(x) + y
    decreases |x|
  {
    var xy := x + y;
    assert xy[0] == x[0];
    if IsSpace(x[0]) {
      assert xy[1..] == x[1..] + y;
      assert !AllSpace(x[1..]) by {
        var j :| 0 <= j < |x| && !IsSpace(x[j]);
        assert x[1..][j - 1] == x[j];
      }
      SkipSpaceAppend(x[1..], y);
    }
  }

  /** `rstrip` of text that is not all whitespace keeps its first character. */
  lemma {:induction false} RStripCons(p: string)
    requires p != [] && !AllSpace(p)
    ensures RStrip(p) == [p[0]] + RStrip(p[1..])
    decreases |p|
  {
    var n := |p|;
    if IsSpace(p[n - 1]) {
      var q := p[..n - 1];
      var j :| 0 <= j < n && !IsSpace(p[j]);
      assert q[j] == p[j];
      RStripCons(q);
      var t := p[1..];
      assert t[|t| - 1] == p[n - 1];
      assert t[..|t| - 1] == q[1..];
    } else if n > 1 {
      assert p[1..][n - 2] == p[n - 1];
    }
  }

  /** The first occurrence is at `j` when `s[j]` is `c` and nothing before it is. */
  lemma {:induction false} IndexOfAt(s: string, c: char, j: nat)
    requires j < |s| && s[j] == c && c !in s[..j]
    ensures IndexOf(s, c) == j
    decreases j
  {
    if j > 0 {
      assert s[0] == s[..j][0];
      assert s[1..][..j - 1] == s[1..j];
      assert s[1..j] == s[..j][1..];
      IndexOfAt(s[1..], c, j - 1);
    }
  }
}
