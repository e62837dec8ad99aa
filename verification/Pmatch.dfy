/** The pattern matcher.  Strings are sequences of 7-bit characters without the terminating NUL. */
module Pmatch {
  type ch = c: int | 1 <= c <= 127 witness 65
  type Str = seq<ch>

  const STAR: ch := 42
  const HASH: ch := 35
  const DOT: ch := 46
  const SPACE: ch := 32

  datatype Flags = Flags(caseInsensitive: bool, disableStar: bool, disableHash: bool, dotAsStar: bool, beginsWith: bool, upToSpace: bool)

  predicate UpperCase(c: ch) { 65 <= c <= 90 }

  /** The same character, or the same letter in the other case. */
  predicate SameLetter(a: ch, b: ch): (same: bool)
    ensures same <==> ToLower(a) == ToLower(b)
  {
    a == b || (65 <= a <= 90 && b == a + 32) || (65 <= b <= 90 && a == b + 32)
  }

  /** `tolower`: the one form of a letter that is not upper case. */
  function ToLower(c: ch): (r: ch)
    ensures !UpperCase(r) && (r == c || (UpperCase(c) && r == c + 32))
  {
    if UpperCase(c) then c + 32 else c
  }

  function Fold(c: ch, f: Flags): ch { if f.caseInsensitive then ToLower(c) else c }

  predicate Ends(p: Str, f: Flags)
  {
    p == [] || (f.upToSpace && p[0] == SPACE) || (f.beginsWith && f.dotAsStar && p[0] == DOT)
  }

  predicate FinalDot(p: Str, f: Flags) { |p| == 1 && p[0] == DOT && f.dotAsStar }
  predicate IsStar(p: Str, f: Flags) { p != [] && p[0] == STAR && !f.disableStar }
  predicate IsHash(p: Str, f: Flags) { p != [] && p[0] == HASH && !f.disableHash }

  /** `pmatch` */
  function Match(p: Str, s: Str, f: Flags): int
    decreases |p| + |s|
  {
    if p == [] || (f.upToSpace && p[0] == SPACE) || (f.beginsWith && f.dotAsStar && p[0] == DOT) then
      if f.beginsWith || s == [] then 0 else -1
    else if p[0] == DOT && f.dotAsStar && |p| == 1 then
      if s == [] then -1 else 0
    else if p[0] == STAR && !f.disableStar then
      if Match(p[1..], s, f) == 0 || (s != [] && Match(p, s[1..], f) == 0) then 0 else -1
    else
      var patternChar: int := Fold(p[0], f);
      var stringChar: int := if s == [] then 0 else Fold(s[0], f);
      if (!f.disableHash && p[0] == HASH && s != []) || patternChar == stringChar then Match(p[1..], s[1..], f)
      else stringChar - patternChar
  }

  // ------------------------------------------------------------- what a pattern means, declaratively

  datatype Token = Literal(c: ch) | One | Many | Some

  /** The tokens of a pattern; a pattern that only has to match the beginning ends in `Many`. */
  function Tokens(p: Str, f: Flags): seq<Token>
  {
    if Ends(p, f) then if f.beginsWith then [Many] else []
    else if FinalDot(p, f) then [Some]
    else [if IsStar(p, f) then Many else if IsHash(p, f) then One else Literal(p[0])] + Tokens(p[1..], f)
  }

  predicate Fits(t: Token, piece: Str, f: Flags)
  {
    match t
    case Literal(c) => |piece| == 1 && (if f.caseInsensitive then SameLetter(c, piece[0]) else c == piece[0])
    case One => |piece| == 1
    case Many => true
    case Some => |piece| >= 1
  }

  function Concat(pieces: seq<Str>): Str { if pieces == [] then [] else pieces[0] + Concat(pieces[1..]) }

  ghost predicate Division(ts: seq<Token>, s: Str, pieces: seq<Str>, f: Flags)
  {
    |pieces| == |ts| && Concat(pieces) == s && forall i :: 0 <= i < |ts| ==> Fits(ts[i], pieces[i], f)
  }

  /** The string can be cut into pieces, one for each token in order, each piece fitting its token. */
  ghost predicate Glob(ts: seq<Token>, s: Str, f: Flags) { exists pieces :: Division(ts, s, pieces, f) }

  lemma GlobNil(s: Str, f: Flags)
    ensures Glob([], s, f) <==> s == []
  {
    if s == [] { assert Division([], s, [], f); }
  }

  lemma GlobCons(t: Token, ts: seq<Token>, s: Str, f: Flags, k: nat)
    requires k <= |s| && Fits(t, s[..k], f) && Glob(ts, s[k..], f)
    ensures Glob([t] + ts, s, f)
  {
    var rest :| Division(ts, s[k..], rest, f);
    assert ([s[..k]] + rest)[1..] == rest;
    assert Division([t] + ts, s, [s[..k]] + rest, f);
  }

  lemma GlobUncons(t: Token, ts: seq<Token>, s: Str, f: Flags) returns (k: nat)
    requires Glob([t] + ts, s, f)
    ensures k <= |s| && Fits(t, s[..k], f) && Glob(ts, s[k..], f)
  {
    var pieces :| Division([t] + ts, s, pieces, f);
    k := |pieces[0]|;
    assert s[..k] == pieces[0] && s[k..] == Concat(pieces[1..]);
    assert Fits(([t] + ts)[0], pieces[0], f);
    assert Division(ts, s[k..], pieces[1..], f) by {
      forall i | 0 <= i < |ts| ensures Fits(ts[i], pieces[1..][i], f) {
        assert ([t] + ts)[i + 1] == ts[i];
      }
    }
  }

  lemma GlobMany(ts: seq<Token>, s: Str, f: Flags)
    ensures Glob([Many] + ts, s, f) <==> Glob(ts, s, f) || (s != [] && Glob([Many] + ts, s[1..], f))
  {
    assert s[0..] == s && s[..0] == [];
    if Glob(ts, s, f) { GlobCons(Many, ts, s, f, 0); }
    if s != [] && Glob([Many] + ts, s[1..], f) {
      var k := GlobUncons(Many, ts, s[1..], f);
      assert s[1..][k..] == s[k + 1..];
      GlobCons(Many, ts, s, f, k + 1);
    }
    if Glob([Many] + ts, s, f) {
      var k := GlobUncons(Many, ts, s, f);
      if k > 0 {
        assert s[1..][k - 1..] == s[k..];
        GlobCons(Many, ts, s[1..], f, k - 1);
      }
    }
  }

  lemma GlobSingle(t: Token, ts: seq<Token>, s: Str, f: Flags)
    requires t.One? || t.Literal?
    ensures Glob([t] + ts, s, f) <==> s != [] && Fits(t, s[..1], f) && Glob(ts, s[1..], f)
  {
    if Glob([t] + ts, s, f) {
      var k := GlobUncons(t, ts, s, f);
      assert |s[..k]| == k;
    }
    if s != [] && Fits(t, s[..1], f) && Glob(ts, s[1..], f) { GlobCons(t, ts, s, f, 1); }
  }

  lemma GlobTail(t: Token, s: Str, f: Flags)
    requires t.Many? || t.Some?
    ensures Glob([t], s, f) <==> t.Many? || s != []
  {
    assert [t] == [t] + [];
    GlobNil([], f);
    if t.Many? || s != [] {
      assert s[..|s|] == s && s[|s|..] == [];
      GlobCons(t, [], s, f, |s|);
    }
    if Glob([t], s, f) {
      var k := GlobUncons(t, [], s, f);
      GlobNil(s[k..], f);
    }
  }

  /** The matcher succeeds exactly on the strings the pattern describes, under every combination of flags. */
  lemma {:induction false} MatchIsGlob(p: Str, s: Str, f: Flags)
    ensures Match(p, s, f) == 0 <==> Glob(Tokens(p, f), s, f)
    decreases |p| + |s|
  {
    if Ends(p, f) {
      if f.beginsWith { GlobTail(Many, s, f); } else { GlobNil(s, f); }
    } else if FinalDot(p, f) {
      GlobTail(Some, s, f);
    } else if IsStar(p, f) {
      GlobMany(Tokens(p[1..], f), s, f);
      MatchIsGlob(p[1..], s, f);
      if s != [] { MatchIsGlob(p, s[1..], f); }
    } else {
      var t := if IsHash(p, f) then One else Literal(p[0]);
      GlobSingle(t, Tokens(p[1..], f), s, f);
      if s != [] { MatchIsGlob(p[1..], s[1..], f); }
    }
  }

  // ----------------------------------------------------------------- the sign of a failed match

  /** The flags of a system-variable search. */
  const SEARCH: Flags := Flags(true, false, false, false, false, true)

  predicate PlainChar(c: ch) { c != SPACE && c != STAR && c != HASH }
  predicate Plain(p: Str) { forall i :: 0 <= i < |p| ==> PlainChar(p[i]) }

  /** Equal but for the case of letters. */
  predicate SameText(a: Str, b: Str) { |a| == |b| && forall i :: 0 <= i < |a| ==> SameLetter(a[i], b[i]) }

  ghost predicate AgreeBelow(a: Str, b: Str, k: int)
  {
    0 <= k <= |a| && k <= |b| && forall i {:trigger a[i]} {:trigger b[i]} :: 0 <= i < k ==> ToLower(a[i]) == ToLower(b[i])
  }

  ghost predicate FirstDifference(a: Str, b: Str, k: int)
  {
    AgreeBelow(a, b, k) && k < |a| && k < |b| && ToLower(a[k]) < ToLower(b[k])
  }

  /** At the first place where the two differ, `a` has the smaller character.  Of two texts where one is a
      prefix of the other, neither is below. */
  ghost predicate Below(a: Str, b: Str) { exists k :: FirstDifference(a, b, k) }

  /** The plain characters a pattern starts with. */
  function Lead(p: Str): Str
  {
    if p == [] || !PlainChar(p[0]) then [] else [p[0]] + Lead(p[1..])
  }

  /** After a '#', a pattern has no further plain character before its first '*' or its end, save the one
      character that nothing exceeds. */
  predicate HashesLast(p: Str)
  {
    p == [] || p[0] == SPACE || p[0] == STAR || (p[0] == HASH && HashesOnly(p[1..])) || (PlainChar(p[0]) && HashesLast(p[1..]))
  }

  predicate HashesOnly(p: Str)
  {
    p == [] || p[0] == SPACE || p[0] == STAR || ((p[0] == HASH || p[0] == 127) && HashesOnly(p[1..]))
  }

  lemma {:induction false} HashesNeverPositive(p: Str, s: Str)
    requires HashesOnly(p)
    ensures Match(p, s, SEARCH) <= 0
    decreases |p|
  {
    if p != [] && (p[0] == HASH || p[0] == 127) && s != [] { HashesNeverPositive(p[1..], s[1..]); }
  }

  lemma BelowTail(a: Str, b: Str)
    requires a != [] && b != [] && ToLower(a[0]) == ToLower(b[0])
    ensures Below(a, b) <==> Below(a[1..], b[1..])
  {
    if Below(a, b) {
      var k :| FirstDifference(a, b, k);
      assert FirstDifference(a[1..], b[1..], k - 1);
    }
    if Below(a[1..], b[1..]) {
      var k :| FirstDifference(a[1..], b[1..], k);
      forall i | 0 <= i < k + 1 ensures ToLower(a[i]) == ToLower(b[i]) {
        if i > 0 { assert a[i] == a[1..][i - 1] && b[i] == b[1..][i - 1]; }
      }
      assert a[k + 1] == a[1..][k] && b[k + 1] == b[1..][k];
      assert FirstDifference(a, b, k + 1);
    }
  }

  /** A positive result means that the string is past everything that starts like the pattern. */
  lemma {:induction false} PositiveIsBelow(p: Str, s: Str)
    requires HashesLast(p)
    ensures Match(p, s, SEARCH) > 0 <==> Below(Lead(p), s)
    decreases |p|
  {
    if p == [] || p[0] == SPACE || p[0] == STAR {
      assert Lead(p) == [];
    } else if p[0] == HASH {
      assert Lead(p) == [];
      HashesNeverPositive(p, s);
    } else if s == [] {
      assert Match(p, s, SEARCH) < 0;
    } else if ToLower(p[0]) == ToLower(s[0]) {
      PositiveIsBelow(p[1..], s[1..]);
      assert Lead(p)[1..] == Lead(p[1..]);
      BelowTail(Lead(p), s);
    } else {
      if ToLower(p[0]) < ToLower(s[0]) { assert FirstDifference(Lead(p), s, 0); }
      if Below(Lead(p), s) {
        var k :| FirstDifference(Lead(p), s, k);
        assert k == 0;
      }
    }
  }

  lemma {:induction false} PlainMatch(p: Str, s: Str)
    requires Plain(p)
    ensures Match(p, s, SEARCH) == 0 <==> SameText(p, s)
    ensures Lead(p) == p && HashesLast(p)
    decreases |p|
  {
    if p != [] {
      assert Plain(p[1..]);
      PlainMatch(p[1..], if s == [] then s else s[1..]);
      if s != [] && ToLower(p[0]) == ToLower(s[0]) {
        assert SameText(p, s) <==> SameText(p[1..], s[1..]) by {
          if SameText(p[1..], s[1..]) {
            forall i | 0 <= i < |p| ensures SameLetter(p[i], s[i]) {
              if i > 0 { assert p[i] == p[1..][i - 1] && s[i] == s[1..][i - 1]; }
            }
          }
        }
      }
    }
  }

  /** What a failed comparison returns: the difference of the first characters that differ, the end of the string counting as 0,
      or -1 when only the pattern has ended. */
  lemma {:induction false} PlainDifference(p: Str, s: Str, k: nat)
    requires Plain(p) && AgreeBelow(p, s, k)
    requires k < |p| && k < |s| ==> !SameLetter(p[k], s[k])
    ensures k < |p| && k < |s| ==> Match(p, s, SEARCH) == ToLower(s[k]) - ToLower(p[k])
    ensures k < |p| && k == |s| ==> Match(p, s, SEARCH) == 0 - ToLower(p[k])
    ensures k == |p| ==> Match(p, s, SEARCH) == if k == |s| then 0 else -1
    decreases k
  {
    if k > 0 {
      assert Plain(p[1..]) by { forall i | 0 <= i < |p| - 1 ensures PlainChar(p[1..][i]) { assert p[1..][i] == p[i + 1]; } }
      forall i | 0 <= i < k - 1 ensures ToLower(p[1..][i]) == ToLower(s[1..][i]) { assert p[1..][i] == p[i + 1] && s[1..][i] == s[i + 1]; }
      PlainDifference(p[1..], s[1..], k - 1);
    } else if p != [] {
      assert PlainChar(p[0]);
    }
  }

  /** The comparison is not an order: of a label and a proper extension of it, each counts as the lower. */
  lemma NotAnOrder(p: Str, q: Str)
    requires Plain(p + q) && q != []
    ensures Match(p, p + q, SEARCH) < 0 && Match(p + q, p, SEARCH) < 0
  {
    assert Plain(p) by { forall i | 0 <= i < |p| ensures PlainChar(p[i]) { assert p[i] == (p + q)[i]; } }
    PlainMatch(p, p + q);
    PlainMatch(p + q, p);
    PositiveIsBelow(p, p + q);
    PositiveIsBelow(p + q, p);
  }

  /** A text that starts like the pattern does is not beyond a string the pattern is below. */
  lemma {:induction false} MatchStartsWithLead(p: Str, s: Str)
    requires Match(p, s, SEARCH) == 0
    ensures AgreeBelow(Lead(p), s, |Lead(p)|)
    decreases |p|
  {
    if p != [] && PlainChar(p[0]) {
      MatchStartsWithLead(p[1..], s[1..]);
      forall i | 0 <= i < |Lead(p)| ensures i < |s| && ToLower(Lead(p)[i]) == ToLower(s[i]) {
        if i > 0 { assert Lead(p)[i] == Lead(p[1..])[i - 1] && s[i] == s[1..][i - 1]; }
      }
    }
  }
}
