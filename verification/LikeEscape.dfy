/**
 * Username search (src/modules/users/users.service.ts): escaping user input for LIKE and ILIKE,
 * against the pattern language with backslash as the escape character.
 */
module LikeEscape {

  predicate IsMeta(c: char) {
    c == '\\' || c == '%' || c == '_'
  }

  /** `input.replace(/[\\%_]/g, (ch) => '\\' + ch)`. */
  function EscapeLike(input: string): string {
    if input == [] then []
    else (if IsMeta(input[0]) then ['\\', input[0]] else [input[0]]) + EscapeLike(input[1..])
  }

  /** The pattern built by search. */
  function SearchPattern(query: string): string {
    ['%'] + EscapeLike(query) + ['%']
  }

  /** SQL LIKE. A pattern that ends in a lone backslash is an error and matches nothing. */
  predicate Like(p: string, s: string)
    decreases |p| + |s|
  {
    if p == [] then s == []
    else if p[0] == '%' then Like(p[1..], s) || (s != [] && Like(p, s[1..]))
    else if p[0] == '_' then s != [] && Like(p[1..], s[1..])
    else if p[0] == '\\' then |p| > 1 && s != [] && s[0] == p[1] && Like(p[2..], s[1..])
    else s != [] && s[0] == p[0] && Like(p[1..], s[1..])
  }

  /** The pattern error "must not end with escape character". */
  predicate DanglingEscape(p: string) {
    if p == [] then false
    else if p[0] == '\\' then |p| == 1 || DanglingEscape(p[2..])
    else DanglingEscape(p[1..])
  }

  ghost predicate OccursAt(q: string, s: string, i: nat) {
    i + |q| <= |s| && s[i..i + |q|] == q
  }

  ghost predicate Occurs(q: string, s: string) {
    exists i: nat :: OccursAt(q, s, i)
  }

  lemma {:induction false} PercentMatchesAll(s: string)
    ensures Like(['%'], s)
  {
    if s == [] {
    } else {
      PercentMatchesAll(s[1..]);
    }
  }

  /** Escaped text followed by % matches exactly the strings that begin with the text. */
  lemma {:induction false} EscapedPrefix(q: string, s: string)
    ensures Like(EscapeLike(q) + ['%'], s) <==> q <= s
  {
    var p := EscapeLike(q) + ['%'];
    if q == [] {
      assert p == ['%'];
      PercentMatchesAll(s);
    } else {
      var tail := EscapeLike(q[1..]) + ['%'];
      assert if IsMeta(q[0]) then p == ['\\', q[0]] + tail else p == [q[0]] + tail;
      assert if IsMeta(q[0]) then p[2..] == tail else p[1..] == tail;
      if s != [] && s[0] == q[0] {
        EscapedPrefix(q[1..], s[1..]);
        assert q == [q[0]] + q[1..] && s == [s[0]] + s[1..];
      }
    }
  }

  ghost predicate LikeFrom(p: string, s: string, i: nat) {
    i <= |s| && Like(p, s[i..])
  }

  lemma LikeFromShift(p: string, s: string, i: nat)
    requires s != []
    ensures LikeFrom(p, s, i + 1) <==> LikeFrom(p, s[1..], i)
  {
    hide Like;
    if i <= |s[1..]| {
      assert s[1..][i..] == s[i + 1..];
    }
  }

  lemma LikeFromStart(p: string, s: string)
    ensures LikeFrom(p, s, 0) <==> Like(p, s)
  {
    hide Like;
    assert s[0..] == s;
  }

  lemma PercentSteps(p: string, s: string)
    ensures Like(['%'] + p, s) <==> Like(p, s) || (s != [] && Like(['%'] + p, s[1..]))
  {
    assert (['%'] + p)[1..] == p;
  }

  /** A leading % skips any number of characters. */
  lemma {:induction false} LeadingPercent(p: string, s: string)
    ensures Like(['%'] + p, s) <==> exists i: nat :: LikeFrom(p, s, i)
  {
    PercentSteps(p, s);
    LikeFromStart(p, s);
    if s == [] {
    } else {
      LeadingPercent(p, s[1..]);
      hide Like, LikeFrom;
      if i: nat :| LikeFrom(p, s, i) {
        if i > 0 {
          LikeFromShift(p, s, i - 1);
        }
      }
      if i: nat :| LikeFrom(p, s[1..], i) {
        LikeFromShift(p, s, i);
      }
    }
  }

  /** For all queries and strings: the pattern matches exactly when the query occurs literally. */
  lemma SearchMatchesLiterally(q: string, s: string)
    ensures Like(SearchPattern(q), s) <==> Occurs(q, s)
  {
    var p := EscapeLike(q) + ['%'];
    assert SearchPattern(q) == ['%'] + p;
    LeadingPercent(p, s);
    if i: nat :| LikeFrom(p, s, i) {
      EscapedPrefix(q, s[i..]);
      assert s[i..][..|q|] == s[i..i + |q|];
      assert OccursAt(q, s, i);
    }
    if i: nat :| OccursAt(q, s, i) {
      EscapedPrefix(q, s[i..]);
      assert s[i..][..|q|] == s[i..i + |q|];
      assert LikeFrom(p, s, i);
    }
  }

  lemma {:induction false} NoDangling(q: string)
    ensures !DanglingEscape(EscapeLike(q) + ['%'])
  {
    var p := EscapeLike(q) + ['%'];
    if q == [] {
    } else {
      NoDangling(q[1..]);
      var tail := EscapeLike(q[1..]) + ['%'];
      assert if IsMeta(q[0]) then p == ['\\', q[0]] + tail else p == [q[0]] + tail;
      assert if IsMeta(q[0]) then p[2..] == tail else p[1..] == tail;
    }
  }

  /** A backslash with nothing after it is what the database rejects. */
  lemma {:induction false} LoneBackslashDangles(q: string)
    ensures DanglingEscape(EscapeLike(q) + ['\\'])
  {
    var p := EscapeLike(q) + ['\\'];
    if q == [] {
    } else {
      LoneBackslashDangles(q[1..]);
      var tail := EscapeLike(q[1..]) + ['\\'];
      assert if IsMeta(q[0]) then p == ['\\', q[0]] + tail else p == [q[0]] + tail;
      assert if IsMeta(q[0]) then p[2..] == tail else p[1..] == tail;
    }
  }

  /** No query makes the database reject the pattern. */
  lemma SearchPatternWellFormed(q: string)
    ensures !DanglingEscape(SearchPattern(q))
  {
    NoDangling(q);
    assert SearchPattern(q)[1..] == EscapeLike(q) + ['%'];
  }

  // ----- the pattern language itself

  function Repeat(c: char, n: nat): string {
    if n == 0 then [] else [c] + Repeat(c, n - 1)
  }

  /** An underscore stands for any one character. */
  lemma {:induction false} UnderscoresCount(n: nat, s: string)
    ensures Like(Repeat('_', n), s) <==> |s| == n
  {
    if n == 0 {
    } else {
      assert Repeat('_', n)[1..] == Repeat('_', n - 1);
      if s != [] {
        UnderscoresCount(n - 1, s[1..]);
      }
    }
  }

  /** A pattern without metacharacters matches itself only. */
  lemma {:induction false} PlainMatchesItself(p: string, s: string)
    requires forall i :: 0 <= i < |p| ==> p[i] != '%' && p[i] != '_' && p[i] != '\\'
    ensures Like(p, s) <==> p == s
  {
    if p == [] || s == [] {
    } else {
      PlainMatchesItself(p[1..], s[1..]);
      assert p == [p[0]] + p[1..] && s == [s[0]] + s[1..];
    }
  }

  /** Without escaping, a search for an underscore would find every name but the empty one. */
  lemma UnescapedUnderscore(s: string)
    ensures Like(['%', '_', '%'], s) <==> s != []
  {
    assert ['%', '_', '%'] == ['%'] + ['_', '%'];
    LeadingPercent(['_', '%'], s);
    if s != [] {
      assert ['_', '%'][1..] == ['%'];
      PercentMatchesAll(s[1..]);
      LikeFromStart(['_', '%'], s);
    }
  }

  // ----- ILIKE

  function Fold(fold: char -> char, s: string): string {
    seq(|s|, i requires 0 <= i < |s| => fold(s[i]))
  }

  /** Case folding neither moves a metacharacter nor produces one. */
  ghost predicate KeepsMeta(fold: char -> char) {
    forall c :: (IsMeta(c) ==> fold(c) == c) && (IsMeta(fold(c)) ==> IsMeta(c))
  }

  predicate Ilike(fold: char -> char, p: string, s: string) {
    Like(Fold(fold, p), Fold(fold, s))
  }

  /** From place i on, s spells q up to case. */
  ghost predicate FoldsTo(fold: char -> char, q: string, s: string, i: nat) {
    i + |q| <= |s| && forall j :: 0 <= j < |q| ==> fold(q[j]) == fold(s[i + j])
  }

  lemma OccursFolded(fold: char -> char, q: string, s: string)
    ensures Occurs(Fold(fold, q), Fold(fold, s)) <==> exists i: nat :: FoldsTo(fold, q, s, i)
  {
    var fq, fs := Fold(fold, q), Fold(fold, s);
    if i: nat :| OccursAt(fq, fs, i) {
      forall j | 0 <= j < |q|
        ensures fold(q[j]) == fold(s[i + j])
      {
        assert fs[i..i + |fq|][j] == fq[j];
      }
      assert FoldsTo(fold, q, s, i);
    }
    if i: nat :| FoldsTo(fold, q, s, i) {
      assert fs[i..i + |fq|] == fq;
      assert OccursAt(fq, fs, i);
    }
  }

  lemma FoldConcat(fold: char -> char, s: string, t: string)
    ensures Fold(fold, s + t) == Fold(fold, s) + Fold(fold, t)
  {
  }

  lemma {:induction false} FoldEscape(fold: char -> char, q: string)
    requires KeepsMeta(fold)
    ensures Fold(fold, EscapeLike(q)) == EscapeLike(Fold(fold, q))
  {
    if q == [] {
    } else {
      var head := if IsMeta(q[0]) then ['\\', q[0]] else [q[0]];
      FoldEscape(fold, q[1..]);
      FoldConcat(fold, head, EscapeLike(q[1..]));
      assert Fold(fold, q)[1..] == Fold(fold, q[1..]);
      assert IsMeta('\\');
      assert Fold(fold, head) == if IsMeta(fold(q[0])) then ['\\', fold(q[0])] else [fold(q[0])];
    }
  }

  /** The same up to case: ILIKE matches exactly when the folded query occurs in the folded name. */
  lemma IlikeSearchMatchesLiterally(fold: char -> char, q: string, s: string)
    requires KeepsMeta(fold)
    ensures Ilike(fold, SearchPattern(q), s) <==> Occurs(Fold(fold, q), Fold(fold, s))
    ensures Ilike(fold, SearchPattern(q), s) <==> exists i: nat :: FoldsTo(fold, q, s, i)
  {
    FoldConcat(fold, ['%'] + EscapeLike(q), ['%']);
    FoldConcat(fold, ['%'], EscapeLike(q));
    FoldEscape(fold, q);
    assert IsMeta('%');
    assert Fold(fold, ['%']) == ['%'];
    assert Fold(fold, SearchPattern(q)) == SearchPattern(Fold(fold, q));
    SearchMatchesLiterally(Fold(fold, q), Fold(fold, s));
    OccursFolded(fold, q, s);
  }
}
