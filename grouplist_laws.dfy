/**
 * What the group-list parser promises, stated over its reference meaning
 * `GroupList` (and, for the capacity defect, over `GroupListAsWritten`).
 */
module GroupListLaws {
  import opened Wrappers
  import opened CType
  import opened GroupListParser

  // ---------------------------------------------------------------------------
  // Resolving tokens

  /** A token that resolves: a number, or a name the group database knows. */
  predicate Known(t: Token, groups: string -> Option<nat>)
  {
    t.Num? || (t.Name? && groups(t.name).Some?)
  }

  predicate AllKnown(toks: seq<Token>, groups: string -> Option<nat>)
  {
    forall i :: 0 <= i < |toks| ==> Known(toks[i], groups)
  }

  function IdOf(t: Token, groups: string -> Option<nat>): nat
    requires Known(t, groups)
  {
    if t.Num? then t.value else groups(t.name).value
  }

  /** The error a token that does not resolve is reported with. */
  function ErrorOf(t: Token, groups: string -> Option<nat>): ParseError
    requires !Known(t, groups)
  {
    if t.Name? then UnknownGroup(t.name) else IllegalChar(t.c)
  }

  function IdsOf(toks: seq<Token>, groups: string -> Option<nat>): (ids: seq<nat>)
    requires AllKnown(toks, groups)
    ensures |ids| == |toks|
  {
    if toks == [] then [] else [IdOf(toks[0], groups)] + IdsOf(toks[1..], groups)
  }

  /**
   * `Resolve` in full: it succeeds exactly when the tokens inside the capacity all
   * resolve, and then appends their ids, in order; otherwise it reports the first
   * token inside the capacity that does not resolve. Tokens past the capacity are
   * never looked at.
   */
  lemma {:induction false} ResolveMeaning(acc: seq<nat>, toks: seq<Token>, room: nat, groups: string -> Option<nat>)
    ensures var n := Min(room, |toks|);
      && (Resolve(acc, toks, room, groups).Success? <==> AllKnown(toks[..n], groups))
      && (AllKnown(toks[..n], groups) ==>
            Resolve(acc, toks, room, groups) == Success(acc + IdsOf(toks[..n], groups)))
      && (!AllKnown(toks[..n], groups) ==>
            exists i :: 0 <= i < n && AllKnown(toks[..i], groups) && !Known(toks[i], groups) &&
                        Resolve(acc, toks, room, groups) == Failure(ErrorOf(toks[i], groups)))
    decreases |toks|, 1
  {
    var n := Min(room, |toks|);
    if toks == [] || room == 0 {
      assert toks[..n] == [];
      assert acc + [] == acc;
    } else if Known(toks[0], groups) {
      ResolveKnownHead(acc, toks, room, groups);
    } else {
      PrefixTail(toks, n);
      AllKnownCons(toks[..n], groups);
      assert Resolve(acc, toks, room, groups) == Failure(ErrorOf(toks[0], groups));
      assert toks[..0] == [];
    }
  }

  /** `ResolveMeaning` when the first token inside the capacity resolves. */
  lemma {:induction false} ResolveKnownHead(acc: seq<nat>, toks: seq<Token>, room: nat, groups: string -> Option<nat>)
    requires toks != [] && room > 0 && Known(toks[0], groups)
    ensures var n := Min(room, |toks|);
      && (Resolve(acc, toks, room, groups).Success? <==> AllKnown(toks[..n], groups))
      && (AllKnown(toks[..n], groups) ==>
            Resolve(acc, toks, room, groups) == Success(acc + IdsOf(toks[..n], groups)))
      && (!AllKnown(toks[..n], groups) ==>
            exists i :: 0 <= i < n && AllKnown(toks[..i], groups) && !Known(toks[i], groups) &&
                        Resolve(acc, toks, room, groups) == Failure(ErrorOf(toks[i], groups)))
    decreases |toks|, 0
  {
    var n := Min(room, |toks|);
    var rest := toks[1..];
    var id := IdOf(toks[0], groups);
    PrefixTail(toks, n);
    AllKnownCons(toks[..n], groups);
    ResolveStep(acc, toks, room, groups);
    ResolveMeaning(acc + [id], rest, room - 1, groups);
    assert Min(room - 1, |rest|) == n - 1;
    if AllKnown(toks[..n], groups) {
      assert IdsOf(toks[..n], groups) == [id] + IdsOf(rest[..n - 1], groups);
      Associative3(acc, [id], IdsOf(rest[..n - 1], groups));
    } else {
      FirstUnknownAfterHead(toks, n, groups);
    }
  }

  /** One resolving token inside the capacity is taken. */
  lemma ResolveStep(acc: seq<nat>, toks: seq<Token>, room: nat, groups: string -> Option<nat>)
    requires toks != [] && room > 0 && Known(toks[0], groups)
    ensures Resolve(acc, toks, room, groups) == Resolve(acc + [IdOf(toks[0], groups)], toks[1..], room - 1, groups)
  {
  }

  /** The first token that does not resolve in the tail is the first one in the whole, one further on. */
  lemma FirstUnknownAfterHead(toks: seq<Token>, n: nat, groups: string -> Option<nat>)
    requires 0 < n <= |toks| && Known(toks[0], groups)
    ensures forall i :: 0 <= i < n - 1 && AllKnown(toks[1..][..i], groups) && !Known(toks[1..][i], groups) ==>
      0 <= i + 1 < n && AllKnown(toks[..i + 1], groups) && !Known(toks[i + 1], groups) && toks[i + 1] == toks[1..][i]
  {
    forall i | 0 <= i < n - 1 && AllKnown(toks[1..][..i], groups) && !Known(toks[1..][i], groups)
      ensures AllKnown(toks[..i + 1], groups)
    {
      PrefixTail(toks, i + 1);
      AllKnownCons(toks[..i + 1], groups);
    }
  }

  /** The first `n` elements of `s`, split at the head. */
  lemma PrefixTail<T>(s: seq<T>, n: nat)
    requires 0 < n <= |s|
    ensures s[..n][0] == s[0] && s[..n][1..] == s[1..][..n - 1]
  {
  }

  lemma AllKnownCons(p: seq<Token>, groups: string -> Option<nat>)
    requires p != []
    ensures AllKnown(p, groups) <==> Known(p[0], groups) && AllKnown(p[1..], groups)
  {
    if Known(p[0], groups) && AllKnown(p[1..], groups) {
      forall i | 0 <= i < |p| ensures Known(p[i], groups) {
        if i > 0 { assert p[i] == p[1..][i - 1]; }
      }
    }
  }

  // ---------------------------------------------------------------------------
  // The shape of the token stream

  /** Names are valid group names; a refused character is last and is no delimiter. */
  ghost predicate WellFormed(toks: seq<Token>)
  {
    forall i :: 0 <= i < |toks| ==>
      (toks[i].Name? ==> IsGroupName(toks[i].name)) &&
      (toks[i].Bad? ==> i == |toks| - 1 && !IsDelim(toks[i].c))
  }

  lemma ConsWellFormed(t: Token, rest: seq<Token>)
    requires WellFormed(rest) && !t.Bad? && (t.Name? ==> IsGroupName(t.name))
    ensures WellFormed([t] + rest)
  {
    forall i | 0 <= i < |[t] + rest|
      ensures ([t] + rest)[i].Name? ==> IsGroupName(([t] + rest)[i].name)
      ensures ([t] + rest)[i].Bad? ==> i == |[t] + rest| - 1 && !IsDelim(([t] + rest)[i].c)
    {
      if i > 0 { assert ([t] + rest)[i] == rest[i - 1]; }
    }
  }

  /** Lexing never yields more tokens than characters, and its output is well formed. */
  lemma {:induction false} LexShape(s: string)
    ensures |Lex(s)| <= |s| && WellFormed(Lex(s))
    ensures |LexAfterName(s)| <= |s| && WellFormed(LexAfterName(s))
    decreases |s|
  {
    if s != [] {
      LexShape(s[1..]);
      if IsDigit(s[0]) {
        var k := DigitRun(s);
        assert s[..k][0] == s[0];
        LexShape(s[k..]);
        ConsWellFormed(Num(Value(s[..k])), Lex(s[k..]));
      } else if IsNameStart(s[0]) {
        var k := Min(NameRun(s), NameMax);
        assert s[..NameRun(s)][0] == s[0];
        assert AllNameChars(s[..k]) by {
          forall i | 0 <= i < k ensures IsNameChar(s[..k][i]) {
            assert s[..k][i] == s[..NameRun(s)][i];
          }
        }
        assert IsGroupName(s[..k]);
        LexShape(s[k..]);
        ConsWellFormed(Name(s[..k]), LexAfterName(s[k..]));
      }
    }
  }

  /** A refused character anywhere in the text: lexing ends with a refused character. */
  lemma {:induction false} LexStopsAtIllegal(s: string, j: nat)
    requires j < |s| && !IsAllowed(s[j])
    ensures Lex(s) != [] && Lex(s)[|Lex(s)| - 1].Bad?
    ensures LexAfterName(s) != [] && LexAfterName(s)[|LexAfterName(s)| - 1].Bad?
    decreases |s|, 1
  {
    if IsDelim(s[0]) {
      LexStopsAtIllegal(s[1..], j - 1);
    } else if IsDigit(s[0]) {
      IllegalAfterDigits(s, j);
    } else if IsNameStart(s[0]) {
      IllegalAfterNameStart(s, j);
    }
  }

  /** `LexStopsAtIllegal` for a text that starts with a digit run. */
  lemma {:induction false} IllegalAfterDigits(s: string, j: nat)
    requires j < |s| && !IsAllowed(s[j]) && IsDigit(s[0])
    ensures Lex(s) != [] && Lex(s)[|Lex(s)| - 1].Bad?
    decreases |s|, 0
  {
    var k := DigitRun(s);
    assert j >= k;
    assert s[k..][j - k] == s[j];
    LexStopsAtIllegal(s[k..], j - k);
    LastOfAppend([Num(Value(s[..k]))], Lex(s[k..]));
  }

  /** `LexStopsAtIllegal` for a text that starts with a name. */
  lemma {:induction false} IllegalAfterNameStart(s: string, j: nat)
    requires j < |s| && !IsAllowed(s[j]) && IsNameStart(s[0])
    ensures Lex(s) != [] && Lex(s)[|Lex(s)| - 1].Bad?
    decreases |s|, 0
  {
    var k := Min(NameRun(s), NameMax);
    assert j >= k;
    assert s[k..][j - k] == s[j];
    LexStopsAtIllegal(s[k..], j - k);
    LastOfAppend([Name(s[..k])], LexAfterName(s[k..]));
  }

  lemma LastOfAppend<T>(a: seq<T>, b: seq<T>)
    requires b != []
    ensures a + b != [] && (a + b)[|a + b| - 1] == b[|b| - 1]
  {
  }

  /**
   * A character that is neither a digit, a letter, `_`, whitespace, `:` nor `,` makes
   * the parse fail, provided fewer than `maxidx` elements come before it (once the
   * capacity is used up the rest of the text is not looked at).
   */
  lemma IllegalCharFails(x: string, j: nat, maxidx: nat, groups: string -> Option<nat>)
    requires j < |x| && !IsAllowed(x[j])
    requires |Lex(x)| <= maxidx
    ensures GroupList(x, maxidx, groups).Failure?
  {
    var toks := Lex(x);
    LexStopsAtIllegal(x, j);
    ResolveMeaning([], toks, maxidx, groups);
    assert toks[..|toks|] == toks;
    assert !Known(toks[|toks| - 1], groups);
  }

  // ---------------------------------------------------------------------------
  // Delimiters

  lemma DigitRunThen(s: string, u: string)
    requires SepStart(u)
    ensures DigitRun(s + u) == DigitRun(s)
  {
    var k := DigitRun(s);
    assert (s + u)[..k] == s[..k];
    if k == |s| && u != [] { assert (s + u)[k] == u[0]; }
    if k < |s| { assert (s + u)[k] == s[k]; }
    DigitRunIs(s + u, k);
  }

  lemma NameRunThen(s: string, u: string)
    requires SepStart(u)
    ensures NameRun(s + u) == NameRun(s)
  {
    var k := NameRun(s);
    assert (s + u)[..k] == s[..k];
    if k == |s| && u != [] {
      assert (s + u)[k] == u[0];
      DelimNotNameChar(u[0]);
    }
    if k < |s| { assert (s + u)[k] == s[k]; }
    NameRunIs(s + u, k);
  }

  lemma DelimNotNameChar(c: char)
    requires IsDelim(c)
    ensures !IsNameChar(c)
  {
  }

  lemma AfterSep(u: string)
    requires SepStart(u)
    ensures LexAfterName(u) == Lex(u)
  {
  }

  /** Splitting off the leading digit run is not disturbed by a delimiter ending. */
  lemma LexDigitsThen(s: string, u: string)
    requires s != [] && IsDigit(s[0]) && SepStart(u)
    ensures var k := DigitRun(s);
      Lex(s + u) == [Num(Value(s[..k]))] + Lex(s[k..] + u)
  {
    var k := DigitRun(s);
    DigitRunThen(s, u);
    SplitAppend(s, u, k);
  }

  /** Splitting off the leading name is not disturbed by a delimiter ending. */
  lemma LexNameStartThen(s: string, u: string)
    requires s != [] && IsNameStart(s[0]) && SepStart(u)
    ensures var k := Min(NameRun(s), NameMax);
      Lex(s + u) == [Name(s[..k])] + LexAfterName(s[k..] + u)
  {
    var k := Min(NameRun(s), NameMax);
    NameRunThen(s, u);
    SplitAppend(s, u, k);
  }

  /** Cutting `s + u` inside `s`. */
  lemma SplitAppend<T>(s: seq<T>, u: seq<T>, k: nat)
    requires 0 < |s| && k <= |s|
    ensures (s + u)[0] == s[0] && (s + u)[..k] == s[..k] && (s + u)[k..] == s[k..] + u
  {
  }

  /**
   * Two endings that start with a delimiter (or are empty) and lex alike can be
   * swapped behind any text: what stands before them lexes the same either way.
   */
  lemma {:induction false} DelimitersAddNothing(s: string, u: string, u': string)
    requires SepStart(u) && SepStart(u') && Lex(u) == Lex(u')
    ensures Lex(s + u) == Lex(s + u')
    decreases |s|, 2
  {
    if s == [] {
      assert s + u == u && s + u' == u';
    } else if IsDelim(s[0]) {
      assert (s + u)[0] == s[0] && (s + u')[0] == s[0];
      assert (s + u)[1..] == s[1..] + u && (s + u')[1..] == s[1..] + u';
      DelimitersAddNothing(s[1..], u, u');
    } else if IsDigit(s[0]) {
      DigitsAddNothing(s, u, u');
    } else if IsNameStart(s[0]) {
      NameAddsNothing(s, u, u');
    } else {
      assert (s + u)[0] == s[0] && (s + u')[0] == s[0];
    }
  }

  /** The same behind a name: what follows it lexes alike with either ending. */
  lemma {:induction false} AfterNameAddsNothing(s: string, u: string, u': string)
    requires SepStart(u) && SepStart(u') && Lex(u) == Lex(u')
    ensures LexAfterName(s + u) == LexAfterName(s + u')
    decreases |s|, 1
  {
    if s == [] {
      assert s + u == u && s + u' == u';
      AfterSep(u);
      AfterSep(u');
    } else {
      assert (s + u)[0] == s[0] && (s + u')[0] == s[0];
      if IsDelim(s[0]) {
        assert (s + u)[1..] == s[1..] + u && (s + u')[1..] == s[1..] + u';
        DelimitersAddNothing(s[1..], u, u');
      }
    }
  }

  lemma {:induction false} DigitsAddNothing(s: string, u: string, u': string)
    requires s != [] && IsDigit(s[0])
    requires SepStart(u) && SepStart(u') && Lex(u) == Lex(u')
    ensures Lex(s + u) == Lex(s + u')
    decreases |s|, 0
  {
    var k := DigitRun(s);
    LexDigitsThen(s, u);
    LexDigitsThen(s, u');
    DelimitersAddNothing(s[k..], u, u');
  }

  lemma {:induction false} NameAddsNothing(s: string, u: string, u': string)
    requires s != [] && IsNameStart(s[0])
    requires SepStart(u) && SepStart(u') && Lex(u) == Lex(u')
    ensures Lex(s + u) == Lex(s + u')
    decreases |s|, 0
  {
    var k := Min(NameRun(s), NameMax);
    LexNameStartThen(s, u);
    LexNameStartThen(s, u');
    AfterNameAddsNothing(s[k..], u, u');
  }

  /** Leading, trailing and repeated delimiters add nothing to a group list. */
  lemma DelimiterRuns(x: string, t: string, d: char, e: char, maxidx: nat, groups: string -> Option<nat>)
    requires IsDelim(d) && IsDelim(e)
    ensures GroupList([d] + x, maxidx, groups) == GroupList(x, maxidx, groups)
    ensures GroupList(x + [d], maxidx, groups) == GroupList(x, maxidx, groups)
    ensures GroupList(x + [d, e] + t, maxidx, groups) == GroupList(x + [d] + t, maxidx, groups)
  {
    LexDelimiter(d, x);
    TrailingDelimiter(x, d);
    DoubledDelimiter(x, t, d, e);
  }

  /** A delimiter in front adds nothing. */
  lemma LexDelimiter(d: char, x: string)
    requires IsDelim(d)
    ensures Lex([d] + x) == Lex(x)
  {
    assert ([d] + x)[1..] == x;
  }

  lemma TrailingDelimiter(x: string, d: char)
    requires IsDelim(d)
    ensures Lex(x + [d]) == Lex(x)
  {
    LexDelimiter(d, []);
    assert [d] + [] == [d];
    DelimitersAddNothing(x, [d], []);
    assert x + [] == x;
  }

  lemma DoubledDelimiter(x: string, t: string, d: char, e: char)
    requires IsDelim(d) && IsDelim(e)
    ensures Lex(x + [d, e] + t) == Lex(x + [d] + t)
  {
    DoubledEnding(t, d, e);
    DelimitersAddNothing(x, [d, e] + t, [d] + t);
    Associative3(x, [d, e], t);
    Associative3(x, [d], t);
  }

  /** Behind nothing, two delimiters lex as one. */
  lemma DoubledEnding(t: string, d: char, e: char)
    requires IsDelim(d) && IsDelim(e)
    ensures SepStart([d, e] + t) && SepStart([d] + t)
    ensures Lex([d, e] + t) == Lex([d] + t)
  {
    ConsTwo(d, e, t);
    LexDelimiter(d, [e] + t);
    LexDelimiter(e, t);
    LexDelimiter(d, t);
  }

  lemma ConsTwo<T>(d: T, e: T, t: seq<T>)
    ensures [d, e] + t == [d] + ([e] + t)
    ensures ([d, e] + t)[0] == d && ([d] + t)[0] == d
  {
  }

  lemma Associative3<T>(a: seq<T>, b: seq<T>, c: seq<T>)
    ensures a + b + c == a + (b + c)
  {
  }

  // ---------------------------------------------------------------------------
  // Elements

  /** A digit run not followed by a digit is one number. */
  lemma LexNumberThen(ds: string, u: string)
    requires |ds| > 0 && AllDigits(ds) && (u == [] || !IsDigit(u[0]))
    ensures Lex(ds + u) == [Num(Value(ds))] + Lex(u)
  {
    var s := ds + u;
    assert s[..|ds|] == ds && s[|ds|..] == u;
    if u != [] { assert s[|ds|] == u[0]; }
    assert s[0] == ds[0];
    DigitRunIs(s, |ds|);
  }

  /** A valid group name followed by a delimiter or the end is one name. */
  lemma LexNameThen(n: string, u: string)
    requires IsGroupName(n) && SepStart(u)
    ensures Lex(n + u) == [Name(n)] + Lex(u)
  {
    var s := n + u;
    assert s[..|n|] == n && s[|n|..] == u;
    if u != [] { assert s[|n|] == u[0]; }
    assert s[0] == n[0];
    NameRunIs(s, |n|);
    AfterSep(u);
  }

  /** A digit run directly followed by a name yields two elements: the number, then the name. */
  lemma NumberThenName(ds: string, n: string, u: string)
    requires |ds| > 0 && AllDigits(ds) && IsGroupName(n) && SepStart(u)
    ensures Lex(ds + n + u) == [Num(Value(ds)), Name(n)] + Lex(u)
  {
    assert ds + n + u == ds + (n + u);
    assert (n + u)[0] == n[0];
    LexNumberThen(ds, n + u);
    LexNameThen(n, u);
  }

  /**
   * A name longer than 31 name characters: only its first 31 characters form the
   * name, and the 32nd is refused because no delimiter follows the name.
   */
  lemma TooLongName(n: string, u: string)
    requires |n| > NameMax && IsNameStart(n[0]) && AllNameChars(n)
    ensures Lex(n + u) == [Name(n[..NameMax]), Bad(n[NameMax])]
  {
    var s := n + u;
    assert s[..NameMax] == n[..NameMax];
    assert s[0] == n[0];
    assert AllNameChars(s[..NameMax]) by {
      forall i | 0 <= i < NameMax ensures IsNameChar(s[..NameMax][i]) {
        assert s[..NameMax][i] == n[i];
      }
    }
    NameRunAtLeast(s, NameMax);
    assert s[NameMax..][0] == n[NameMax];
    assert IsNameChar(n[NameMax]);
  }

  /**
   * Hence a name longer than 31 characters is never accepted when another slot is
   * left after it, wherever it stands in a list of known elements: an unknown
   * 31-character prefix is reported, otherwise the refused 32nd character. (A
   * leading comma adds nothing, so `es == []` is the name at the front.)
   */
  lemma LongNameRejected(es: seq<ListItem>, n: string, u: string, maxidx: nat, groups: string -> Option<nat>)
    requires ValidElements(es) && forall i :: 0 <= i < |es| ==> es[i].Group? ==> groups(es[i].name).Some?
    requires |n| > NameMax && IsNameStart(n[0]) && AllNameChars(n)
    requires |es| + 2 <= maxidx
    ensures GroupList(Join(es) + [','] + n + u, maxidx, groups) ==
      if groups(n[..NameMax]).None? then Failure(UnknownGroup(n[..NameMax]))
      else Failure(IllegalChar(n[NameMax]))
  {
    LexLongAfterList(es, n, u);
    TokensKnown(es, groups);
    KnownThenLongName(Join(es) + [','] + n + u, Tokens(es), n[..NameMax], n[NameMax], maxidx, groups);
  }

  lemma KnownThenLongName(x: string, toks: seq<Token>, g: string, c: char, maxidx: nat, groups: string -> Option<nat>)
    requires Lex(x) == toks + [Name(g), Bad(c)]
    requires AllKnown(toks, groups) && |toks| + 2 <= maxidx
    ensures GroupList(x, maxidx, groups) ==
      if groups(g).None? then Failure(UnknownGroup(g)) else Failure(IllegalChar(c))
  {
    ResolveKnownPrefix([], toks, [Name(g), Bad(c)], maxidx, groups);
    LongTail([] + IdsOf(toks, groups), g, c, maxidx - |toks|, groups);
  }

  /** A name token and then a refused character, with room for both. */
  lemma LongTail(ids: seq<nat>, g: string, c: char, room: nat, groups: string -> Option<nat>)
    requires room >= 2
    ensures Resolve(ids, [Name(g), Bad(c)], room, groups) ==
      if groups(g).None? then Failure(UnknownGroup(g)) else Failure(IllegalChar(c))
  {
    var tail := [Name(g), Bad(c)];
    assert tail[0] == Name(g) && tail[1..] == [Bad(c)];
    match groups(g) {
      case None =>
      case Some(gid) =>
        assert Resolve(ids, tail, room, groups) == Resolve(ids + [gid], [Bad(c)], room - 1, groups);
    }
  }

  /** A list of elements, a comma, and a name longer than 31 characters. */
  lemma LexLongAfterList(es: seq<ListItem>, n: string, u: string)
    requires ValidElements(es)
    requires |n| > NameMax && IsNameStart(n[0]) && AllNameChars(n)
    ensures Lex(Join(es) + [','] + n + u) == Tokens(es) + [Name(n[..NameMax]), Bad(n[NameMax])]
  {
    Associative(Join(es), [','], n, u);
    LexJoin(es, [','] + (n + u));
    LexDelimiter(',', n + u);
    TooLongName(n, u);
  }

  /** Tokens that all resolve and fit the capacity are taken one by one. */
  lemma {:induction false} ResolveKnownPrefix(acc: seq<nat>, a: seq<Token>, b: seq<Token>, room: nat,
                                              groups: string -> Option<nat>)
    requires AllKnown(a, groups) && |a| <= room
    ensures Resolve(acc, a + b, room, groups) == Resolve(acc + IdsOf(a, groups), b, room - |a|, groups)
    decreases |a|
  {
    if a == [] {
      assert a + b == b;
      assert acc + [] == acc;
    } else {
      var id := IdOf(a[0], groups);
      ConsTail(a, b);
      AllKnownCons(a, groups);
      assert Resolve(acc, a + b, room, groups) == Resolve(acc + [id], a[1..] + b, room - 1, groups);
      ResolveKnownPrefix(acc + [id], a[1..], b, room - 1, groups);
      assert IdsOf(a, groups) == [id] + IdsOf(a[1..], groups);
      Associative3(acc, [id], IdsOf(a[1..], groups));
    }
  }

  lemma ConsTail<T>(a: seq<T>, b: seq<T>)
    requires a != []
    ensures (a + b)[0] == a[0] && (a + b)[1..] == a[1..] + b
  {
  }

  // ---------------------------------------------------------------------------
  // Ordered elements

  datatype ListItem = Number(n: nat) | Group(name: string)

  function Text(e: ListItem): string
  {
    match e
    case Number(n) => Render(n)
    case Group(g) => g
  }

  /** The elements written out, separated by commas. */
  function Join(es: seq<ListItem>): string
  {
    if es == [] then []
    else if |es| == 1 then Text(es[0])
    else Text(es[0]) + [','] + Join(es[1..])
  }

  predicate ValidElements(es: seq<ListItem>)
  {
    forall i :: 0 <= i < |es| ==> es[i].Group? ==> IsGroupName(es[i].name)
  }

  function TokenOf(e: ListItem): Token
  {
    match e
    case Number(n) => Num(n)
    case Group(g) => Name(g)
  }

  function Tokens(es: seq<ListItem>): (toks: seq<Token>)
    ensures |toks| == |es|
  {
    if es == [] then [] else [TokenOf(es[0])] + Tokens(es[1..])
  }

  lemma LexElement(e: ListItem, u: string)
    requires e.Group? ==> IsGroupName(e.name)
    requires SepStart(u)
    ensures Lex(Text(e) + u) == [TokenOf(e)] + Lex(u)
  {
    match e {
      case Number(n) =>
        RenderRoundTrip(n);
        LexNumberThen(Render(n), u);
      case Group(g) =>
        LexNameThen(g, u);
    }
  }

  lemma ValidTail(es: seq<ListItem>)
    requires es != [] && ValidElements(es)
    ensures ValidElements(es[1..])
  {
    forall i | 0 <= i < |es| - 1 ensures es[1..][i].Group? ==> IsGroupName(es[1..][i].name) {
      assert es[1..][i] == es[i + 1];
    }
  }

  /** Reading back a written-out element list gives its elements, in order, whatever follows a delimiter. */
  lemma {:induction false} LexJoin(es: seq<ListItem>, u: string)
    requires ValidElements(es) && SepStart(u)
    ensures Lex(Join(es) + u) == Tokens(es) + Lex(u)
    decreases |es|
  {
    if es == [] {
      assert Join(es) + u == u;
    } else if |es| == 1 {
      LexElement(es[0], u);
      assert Tokens(es) == [TokenOf(es[0])];
    } else {
      ValidTail(es);
      LexJoin(es[1..], u);
      assert es[0].Group? ==> IsGroupName(es[0].name);
      JoinCons(es, u);
      LexCommaElement(es[0], Join(es[1..]) + u, Tokens(es[1..]) + Lex(u));
      TokensCons(es, Lex(u));
    }
  }

  lemma TokensCons(es: seq<ListItem>, t: seq<Token>)
    requires es != []
    ensures Tokens(es) + t == [TokenOf(es[0])] + (Tokens(es[1..]) + t)
  {
  }

  /** An element, a comma, and a tail that reads as `t`. */
  lemma LexCommaElement(e: ListItem, tail: string, t: seq<Token>)
    requires e.Group? ==> IsGroupName(e.name)
    requires Lex(tail) == t
    ensures Lex(Text(e) + ([','] + tail)) == [TokenOf(e)] + t
  {
    LexElement(e, [','] + tail);
    LexDelimiter(',', tail);
  }

  lemma JoinCons(es: seq<ListItem>, u: string)
    requires |es| > 1
    ensures Join(es) + u == Text(es[0]) + ([','] + (Join(es[1..]) + u))
  {
    assert Join(es) == Text(es[0]) + [','] + Join(es[1..]);
    Associative(Text(es[0]), [','], Join(es[1..]), u);
  }

  lemma Associative<T>(a: seq<T>, b: seq<T>, c: seq<T>, d: seq<T>)
    ensures a + b + c + d == a + (b + (c + d))
  {
  }

  lemma TokensKnown(es: seq<ListItem>, groups: string -> Option<nat>)
    requires forall i :: 0 <= i < |es| ==> es[i].Group? ==> groups(es[i].name).Some?
    ensures AllKnown(Tokens(es), groups)
  {
    forall i | 0 <= i < |es| ensures Known(Tokens(es)[i], groups) {
      TokensAt(es, i);
    }
  }

  lemma {:induction false} TokensAt(es: seq<ListItem>, i: nat)
    requires i < |es|
    ensures Tokens(es)[i] == TokenOf(es[i])
    decreases i
  {
    if i > 0 { TokensAt(es[1..], i - 1); }
  }

  function ElementIds(es: seq<ListItem>, groups: string -> Option<nat>): (ids: seq<nat>)
    requires forall i :: 0 <= i < |es| ==> es[i].Group? ==> groups(es[i].name).Some?
    ensures |ids| == |es|
  {
    if es == [] then []
    else
      var id := match es[0] case Number(n) => n case Group(g) => groups(g).value;
      [id] + ElementIds(es[1..], groups)
  }

  /**
   * With the group lookup fixed, a comma-separated list of numbers and known group
   * names yields their ids in order, cut at the capacity; whatever follows the last
   * element inside the capacity is not looked at once the capacity is used up.
   */
  lemma OrderedElements(es: seq<ListItem>, u: string, maxidx: nat, groups: string -> Option<nat>)
    requires ValidElements(es) && SepStart(u)
    requires forall i :: 0 <= i < |es| ==> es[i].Group? ==> groups(es[i].name).Some?
    requires |es| >= maxidx || Lex(u) == []
    ensures GroupList(Join(es) + u, maxidx, groups) == Success(ElementIds(es, groups)[..Min(maxidx, |es|)])
  {
    var toks := Lex(Join(es) + u);
    LexJoin(es, u);
    TokensKnown(es, groups);
    var n := Min(maxidx, |toks|);
    assert toks[..n] == Tokens(es)[..Min(maxidx, |es|)] by {
      if Lex(u) == [] { assert toks == Tokens(es); }
    }
    IdsOfPrefix(Tokens(es), Min(maxidx, |es|), groups);
    ResolveMeaning([], toks, maxidx, groups);
    assert AllKnown(toks[..n], groups) by {
      forall i | 0 <= i < n ensures Known(toks[..n][i], groups) {
        assert toks[..n][i] == Tokens(es)[i];
      }
    }
    assert [] + IdsOf(toks[..n], groups) == IdsOf(toks[..n], groups);
    ElementIdsAreIds(es, groups);
  }

  lemma {:induction false} ElementIdsAreIds(es: seq<ListItem>, groups: string -> Option<nat>)
    requires forall i :: 0 <= i < |es| ==> es[i].Group? ==> groups(es[i].name).Some?
    ensures AllKnown(Tokens(es), groups) && IdsOf(Tokens(es), groups) == ElementIds(es, groups)
    decreases |es|
  {
    TokensKnown(es, groups);
    if es != [] {
      assert Tokens(es)[1..] == Tokens(es[1..]);
      ElementIdsAreIds(es[1..], groups);
    }
  }

  lemma {:induction false} IdsOfPrefix(toks: seq<Token>, k: nat, groups: string -> Option<nat>)
    requires AllKnown(toks, groups) && k <= |toks|
    ensures AllKnown(toks[..k], groups)
    ensures IdsOf(toks[..k], groups) == IdsOf(toks, groups)[..k]
    ensures |IdsOf(toks, groups)| == |toks|
    decreases |toks|
  {
    assert AllKnown(toks[..k], groups) by {
      forall i | 0 <= i < k ensures Known(toks[..k][i], groups) { assert toks[..k][i] == toks[i]; }
    }
    if toks != [] {
      assert AllKnown(toks[1..], groups) by {
        forall i | 0 <= i < |toks| - 1 ensures Known(toks[1..][i], groups) { assert toks[1..][i] == toks[i + 1]; }
      }
      if k > 0 {
        IdsOfPrefix(toks[1..], k - 1, groups);
        assert toks[..k][1..] == toks[1..][..k - 1];
      } else {
        IdsOfPrefix(toks[1..], 0, groups);
      }
    }
  }

  // ---------------------------------------------------------------------------
  // Worked examples

  /** "1,2,staff" gives the two numbers and the id of `staff`, in that order. */
  lemma ExampleList(groups: string -> Option<nat>)
    requires groups("staff") == Some(50)
    ensures GroupList("1,2,staff", 10, groups) == Success([1, 2, 50])
  {
    var es := [Number(1), Number(2), Group("staff")];
    assert es[1..] == [Number(2), Group("staff")];
    assert es[1..][1..] == [Group("staff")];
    assert Join(es) == "1,2,staff";
    assert ValidElements(es);
    OrderedElements(es, [], 10, groups);
    assert Join(es) + [] == Join(es);
    assert ElementIds(es, groups) == [1, 2, 50];
    assert [1, 2, 50][..3] == [1, 2, 50];
  }

  /** "12abc" is the number 12 followed by the name "abc". */
  lemma ExampleNumberThenName()
    ensures Lex("12abc") == [Num(12), Name("abc")]
  {
    assert "12"[..1] == "1" && "1"[..0] == "";
    assert Value("12") == 12;
    NumberThenName("12", "abc", []);
    assert "12" + "abc" + [] == "12abc";
  }

  /** "1;2" is refused at the semicolon, unless the capacity is used up before it. */
  lemma ExampleIllegal(maxidx: nat, groups: string -> Option<nat>)
    requires maxidx > 0
    ensures GroupList("1;2", maxidx, groups) ==
      if maxidx == 1 then Success([1]) else Failure(IllegalChar(';'))
  {
    assert "1"[..0] == "";
    assert Value("1") == 1;
    LexNumberThen("1", ";2");
    assert "1" + ";2" == "1;2";
    assert Lex(";2") == [Bad(';')];
    var toks := [Num(1), Bad(';')];
    assert Lex("1;2") == toks;
    assert toks[0] == Num(1) && toks[1..] == [Bad(';')];
    assert [] + [1] == [1];
    assert Resolve([], toks, maxidx, groups) == Resolve([1], [Bad(';')], maxidx - 1, groups);
  }

  // ---------------------------------------------------------------------------
  // The capacity defect of the name branch (cycles.c:103)

  function Repeat<T>(x: T, n: nat): (r: seq<T>)
    ensures |r| == n && forall i :: 0 <= i < n ==> r[i] == x
  {
    if n == 0 then [] else [x] + Repeat(x, n - 1)
  }

  predicate NoNames(toks: seq<Token>)
  {
    forall i :: 0 <= i < |toks| ==> !toks[i].Name?
  }

  /** As written, a run of known names is stored in full, whatever the capacity. */
  lemma {:induction false} AsWrittenNames(acc: seq<nat>, toks: seq<Token>, maxidx: nat, groups: string -> Option<nat>)
    requires forall i :: 0 <= i < |toks| ==> toks[i].Name? && groups(toks[i].name).Some?
    ensures AllKnown(toks, groups)
    ensures ResolveAsWritten(acc, toks, maxidx, groups) == Success(acc + IdsOf(toks, groups))
    decreases |toks|
  {
    if toks == [] {
      assert acc + [] == acc;
    } else {
      var gid := groups(toks[0].name).value;
      assert forall i :: 0 <= i < |toks| - 1 ==> toks[1..][i] == toks[i + 1];
      AsWrittenNames(acc + [gid], toks[1..], maxidx, groups);
      assert acc + ([gid] + IdsOf(toks[1..], groups)) == (acc + [gid]) + IdsOf(toks[1..], groups);
    }
  }

  lemma {:induction false} RepeatedGroups(g: string, gid: nat, n: nat, groups: string -> Option<nat>)
    requires IsGroupName(g) && groups(g) == Some(gid)
    ensures ValidElements(Repeat(Group(g), n))
    ensures forall i :: 0 <= i < n ==> Tokens(Repeat(Group(g), n))[i] == Name(g)
    ensures ElementIds(Repeat(Group(g), n), groups) == Repeat(gid, n)
    decreases n
  {
    if n > 0 {
      RepeatedGroups(g, gid, n - 1, groups);
      var es := Repeat(Group(g), n);
      assert es[1..] == Repeat(Group(g), n - 1);
      assert forall i :: 0 <= i < n - 1 ==> Tokens(es)[i + 1] == Tokens(es[1..])[i];
    }
  }

  /**
   * The defect: with `maxidx + 1` known names the source stores `maxidx + 1` ids, the
   * last of them in slot `maxidx`, one past the capacity (in `main`, `gids[10]`).
   * With the check in both branches exactly `maxidx` ids are stored.
   */
  lemma AsWrittenOverflow(g: string, gid: nat, maxidx: nat, groups: string -> Option<nat>)
    requires IsGroupName(g) && groups(g) == Some(gid)
    ensures var x := Join(Repeat(Group(g), maxidx + 1));
      && GroupListAsWritten(x, maxidx, groups) == Success(Repeat(gid, maxidx + 1))
      && GroupList(x, maxidx, groups) == Success(Repeat(gid, maxidx))
  {
    var es := Repeat(Group(g), maxidx + 1);
    var x := Join(es);
    RepeatedGroups(g, gid, maxidx + 1, groups);
    LexJoin(es, []);
    assert x + [] == x;
    assert Lex(x) == Tokens(es);
    ElementIdsAreIds(es, groups);
    AsWrittenNames([], Tokens(es), maxidx, groups);
    assert [] + IdsOf(Tokens(es), groups) == Repeat(gid, maxidx + 1);
    OrderedElements(es, [], maxidx, groups);
    RepeatPrefix(gid, maxidx);
  }

  lemma {:induction false} RepeatPrefix<T>(x: T, n: nat)
    ensures Repeat(x, n + 1)[..n] == Repeat(x, n)
    decreases n
  {
    if n > 0 {
      RepeatPrefix(x, n - 1);
      assert Repeat(x, n + 1)[..n] == [x] + Repeat(x, n)[..n - 1];
    }
  }

  /**
   * Without names the two agree: the numeric branch's own check keeps every write
   * inside the capacity.
   */
  lemma {:induction false} AsWrittenAgreesWithoutNames(acc: seq<nat>, toks: seq<Token>, maxidx: nat,
                                                       groups: string -> Option<nat>)
    requires NoNames(toks) && |acc| < maxidx
    ensures ResolveAsWritten(acc, toks, maxidx, groups) == Resolve(acc, toks, maxidx - |acc|, groups)
    decreases |toks|
  {
    if toks != [] && toks[0].Num? {
      var v := toks[0].value;
      assert NoNames(toks[1..]) by {
        forall i | 0 <= i < |toks| - 1 ensures !toks[1..][i].Name? { assert toks[1..][i] == toks[i + 1]; }
      }
      if |acc| + 1 < maxidx {
        AsWrittenAgreesWithoutNames(acc + [v], toks[1..], maxidx, groups);
      }
    }
  }

  predicate NoNameStart(s: string)
  {
    forall i :: 0 <= i < |s| ==> !IsNameStart(s[i])
  }

  lemma NoNameStartTail(s: string, k: nat)
    requires NoNameStart(s) && k <= |s|
    ensures NoNameStart(s[k..])
  {
    forall i | 0 <= i < |s| - k ensures !IsNameStart(s[k..][i]) { assert s[k..][i] == s[k + i]; }
  }

  lemma NoNamesCons(t: Token, toks: seq<Token>)
    requires !t.Name? && NoNames(toks)
    ensures NoNames([t] + toks)
  {
    forall i | 0 <= i < |toks| + 1 ensures !([t] + toks)[i].Name? {
      if i > 0 { assert ([t] + toks)[i] == toks[i - 1]; }
    }
  }

  /** Text without a letter or `_` lexes to numbers only. */
  lemma {:induction false} LexWithoutNameStart(s: string)
    requires NoNameStart(s)
    ensures NoNames(Lex(s)) && NoNames(LexAfterName(s))
    decreases |s|
  {
    if s != [] {
      NoNameStartTail(s, 1);
      LexWithoutNameStart(s[1..]);
      if IsDigit(s[0]) {
        var k := DigitRun(s);
        NoNameStartTail(s, k);
        LexWithoutNameStart(s[k..]);
        NoNamesCons(Num(Value(s[..k])), Lex(s[k..]));
      }
    }
  }

  /**
   * For input of digits and delimiters the source stays inside the capacity: it
   * computes exactly `GroupList`, so at most `maxidx` entries are written.
   */
  lemma DigitsStayInside(x: string, maxidx: nat, groups: string -> Option<nat>)
    requires NoNameStart(x) && 0 < maxidx
    ensures GroupListAsWritten(x, maxidx, groups) == GroupList(x, maxidx, groups)
    ensures GroupListAsWritten(x, maxidx, groups).Success? ==> |GroupListAsWritten(x, maxidx, groups).value| <= maxidx
  {
    LexWithoutNameStart(x);
    AsWrittenAgreesWithoutNames([], Lex(x), maxidx, groups);
  }

  /**
   * As written, a name longer than 31 characters is never accepted, wherever it
   * stands after known elements that leave the numeric branch's capacity check
   * unreached: the name branch stores without that check, and then the refused
   * 32nd character ends the parse.
   */
  lemma AsWrittenRejectsLongName(es: seq<ListItem>, n: string, u: string, maxidx: nat, groups: string -> Option<nat>)
    requires ValidElements(es) && forall i :: 0 <= i < |es| ==> es[i].Group? ==> groups(es[i].name).Some?
    requires |n| > NameMax && IsNameStart(n[0]) && AllNameChars(n)
    requires |es| < maxidx
    ensures GroupListAsWritten(Join(es) + [','] + n + u, maxidx, groups) ==
      if groups(n[..NameMax]).None? then Failure(UnknownGroup(n[..NameMax]))
      else Failure(IllegalChar(n[NameMax]))
  {
    LexLongAfterList(es, n, u);
    TokensKnown(es, groups);
    AsWrittenKnownThenLongName(Join(es) + [','] + n + u, Tokens(es), n[..NameMax], n[NameMax], maxidx, groups);
  }

  lemma AsWrittenKnownThenLongName(x: string, toks: seq<Token>, g: string, c: char, maxidx: nat,
                                   groups: string -> Option<nat>)
    requires Lex(x) == toks + [Name(g), Bad(c)]
    requires AllKnown(toks, groups) && |toks| < maxidx
    ensures GroupListAsWritten(x, maxidx, groups) ==
      if groups(g).None? then Failure(UnknownGroup(g)) else Failure(IllegalChar(c))
  {
    AsWrittenKnownPrefix([], toks, [Name(g), Bad(c)], maxidx, groups);
    AsWrittenLongTail([] + IdsOf(toks, groups), g, c, maxidx, groups);
  }

  /** As written, a name token and then a refused character: the name is stored unchecked. */
  lemma AsWrittenLongTail(ids: seq<nat>, g: string, c: char, maxidx: nat, groups: string -> Option<nat>)
    ensures ResolveAsWritten(ids, [Name(g), Bad(c)], maxidx, groups) ==
      if groups(g).None? then Failure(UnknownGroup(g)) else Failure(IllegalChar(c))
  {
    var tail := [Name(g), Bad(c)];
    assert tail[0] == Name(g) && tail[1..] == [Bad(c)];
    match groups(g) {
      case None =>
      case Some(gid) =>
        assert ResolveAsWritten(ids, tail, maxidx, groups) == ResolveAsWritten(ids + [gid], [Bad(c)], maxidx, groups);
    }
  }

  /** As written, resolving tokens are taken one by one while numbers stay below the capacity check. */
  lemma {:induction false} AsWrittenKnownPrefix(acc: seq<nat>, a: seq<Token>, b: seq<Token>, maxidx: nat,
                                                groups: string -> Option<nat>)
    requires AllKnown(a, groups) && |acc| + |a| < maxidx
    ensures ResolveAsWritten(acc, a + b, maxidx, groups) == ResolveAsWritten(acc + IdsOf(a, groups), b, maxidx, groups)
    decreases |a|
  {
    if a == [] {
      assert a + b == b;
      assert acc + [] == acc;
    } else {
      var id := IdOf(a[0], groups);
      ConsTail(a, b);
      AllKnownCons(a, groups);
      assert ResolveAsWritten(acc, a + b, maxidx, groups) == ResolveAsWritten(acc + [id], a[1..] + b, maxidx, groups);
      AsWrittenKnownPrefix(acc + [id], a[1..], b, maxidx, groups);
      assert IdsOf(a, groups) == [id] + IdsOf(a[1..], groups);
      Associative3(acc, [id], IdsOf(a[1..], groups));
    }
  }

  /**
   * The price of the one-line correction: a long name whose 31-character prefix is a
   * known group and fills the last slot, after any list of known elements, is
   * accepted, just as the numeric branch accepts a number that fills the last slot
   * whatever follows it.
   */
  lemma LongNameInLastSlot(es: seq<ListItem>, n: string, u: string, maxidx: nat, groups: string -> Option<nat>)
    requires ValidElements(es) && forall i :: 0 <= i < |es| ==> es[i].Group? ==> groups(es[i].name).Some?
    requires |n| > NameMax && IsNameStart(n[0]) && AllNameChars(n)
    requires groups(n[..NameMax]).Some?
    requires |es| + 1 == maxidx
    ensures GroupList(Join(es) + [','] + n + u, maxidx, groups) ==
      Success(ElementIds(es, groups) + [groups(n[..NameMax]).value])
  {
    LexLongAfterList(es, n, u);
    ElementIdsAreIds(es, groups);
    KnownThenLastName(Join(es) + [','] + n + u, Tokens(es), n[..NameMax], n[NameMax], maxidx, groups);
  }

  lemma KnownThenLastName(x: string, toks: seq<Token>, g: string, c: char, maxidx: nat, groups: string -> Option<nat>)
    requires Lex(x) == toks + [Name(g), Bad(c)]
    requires AllKnown(toks, groups) && |toks| + 1 == maxidx && groups(g).Some?
    ensures GroupList(x, maxidx, groups) == Success(IdsOf(toks, groups) + [groups(g).value])
  {
    ResolveKnownPrefix([], toks, [Name(g), Bad(c)], maxidx, groups);
    LastSlotTail([] + IdsOf(toks, groups), g, c, groups);
    assert [] + IdsOf(toks, groups) == IdsOf(toks, groups);
  }

  /** A known name in the last slot ends the parse before the refused character is looked at. */
  lemma LastSlotTail(ids: seq<nat>, g: string, c: char, groups: string -> Option<nat>)
    requires groups(g).Some?
    ensures Resolve(ids, [Name(g), Bad(c)], 1, groups) == Success(ids + [groups(g).value])
  {
    var tail := [Name(g), Bad(c)];
    assert tail[0] == Name(g) && tail[1..] == [Bad(c)];
    assert Resolve(ids, tail, 1, groups) == Resolve(ids + [groups(g).value], [Bad(c)], 0, groups);
  }
}
