/** CSS selectors: compounds joined by child and descendant combinators, matched greedily from the right. */
module Selector {
  import opened Wrappers

  /** Missing attributes are None. */
  datatype Element = Element(tag: string, classes: Option<string>, id: Option<string>)

  datatype Relation = Child | Descendant

  // ----- greedy matching against an abstract test -----

  /** Does compound i match position j? Positions 0 .. k - 1 are the ancestors, outermost first, k the element. */
  type Test = (nat, nat) -> bool

  /** Positions for compounds 0 .. n: ascending, adjacent across a child combinator, the last one at k. */
  ghost predicate Embedding(test: Test, relations: seq<Relation>, k: nat, p: seq<nat>) {
    && |p| == |relations| + 1 && p[|relations|] == k
    && (forall i | 0 <= i < |relations| :: p[i] < p[i + 1] && (relations[i] == Child ==> p[i] + 1 == p[i + 1]))
    && (forall i: nat | i < |p| :: test(i, p[i]))
  }

  /** What the selector means. */
  ghost predicate Matches(test: Test, relations: seq<Relation>, k: nat) {
    exists p :: Embedding(test, relations, k, p)
  }

  /** The nearest ancestor at or before `from` that compound i matches, or -1. */
  function Nearest(test: Test, i: nat, from: int): (j: int)
    requires from >= -1
    ensures -1 <= j <= from && (j >= 0 ==> test(i, j))
    ensures forall q: nat | j < q <= from :: !test(i, q)
    decreases from
  {
    if from < 0 then -1 else if test(i, from) then from else Nearest(test, i, from - 1)
  }

  /** Greedy matching of the first n compounds with the ancestors up to `from`. */
  predicate Greedy(test: Test, relations: seq<Relation>, n: nat, from: int)
    requires n <= |relations| && from >= -1
  {
    if n == 0 then true
    else if relations[n - 1] == Child then from >= 0 && test(n - 1, from) && Greedy(test, relations, n - 1, from - 1)
    else
      var j := Nearest(test, n - 1, from);
      j >= 0 && Greedy(test, relations, n - 1, j - 1)
  }

  /** No child combinator stands to the left of a descendant combinator. */
  ghost predicate ChildrenLast(relations: seq<Relation>) {
    forall i, j | 0 <= i < j < |relations| :: relations[i] == Child ==> relations[j] == Child
  }

  /** Positions for the first n compounds below `next`, as in Embedding. */
  ghost predicate Below(test: Test, relations: seq<Relation>, n: nat, next: int, p: seq<nat>)
    requires n <= |relations|
  {
    && |p| == n
    && (forall i: nat | i < n :: test(i, p[i]))
    && (forall i | 0 <= i < n - 1 :: p[i] < p[i + 1] && (relations[i] == Child ==> p[i] + 1 == p[i + 1]))
    && (n > 0 ==> p[n - 1] < next && (relations[n - 1] == Child ==> p[n - 1] + 1 == next))
  }

  lemma BelowSnoc(test: Test, relations: seq<Relation>, n: nat, j: nat, next: int, p: seq<nat>)
    requires n < |relations| && Below(test, relations, n, j, p) && test(n, j)
    requires j < next && (relations[n] == Child ==> j + 1 == next)
    ensures Below(test, relations, n + 1, next, p + [j])
  {
    var q := p + [j];
    forall i | 0 <= i < n ensures q[i] < q[i + 1] && (relations[i] == Child ==> q[i] + 1 == q[i + 1]) {
      if i < n - 1 { assert p[i] < p[i + 1]; }
    }
  }

  lemma {:induction false} GreedySound(test: Test, relations: seq<Relation>, n: nat, from: int) returns (p: seq<nat>)
    requires n <= |relations| && from >= -1 && Greedy(test, relations, n, from)
    ensures Below(test, relations, n, from + 1, p)
    decreases n
  {
    if n == 0 {
      p := [];
    } else {
      var j := if relations[n - 1] == Child then from else Nearest(test, n - 1, from);
      var q := GreedySound(test, relations, n - 1, j - 1);
      BelowSnoc(test, relations, n - 1, j, from + 1, q);
      p := q + [j];
    }
  }

  lemma {:induction false} GreedyComplete(test: Test, relations: seq<Relation>, n: nat, from: int, p: seq<nat>)
    requires n <= |relations| && from >= -1 && ChildrenLast(relations) && |p| >= n
    requires forall i: nat | i < n :: test(i, p[i])
    requires forall i | 0 <= i < n - 1 :: p[i] < p[i + 1] && (relations[i] == Child ==> p[i] + 1 == p[i + 1])
    requires n > 0 ==> p[n - 1] <= from && (relations[n - 1] == Child ==> p[n - 1] == from)
    ensures Greedy(test, relations, n, from)
    decreases n
  {
    if n > 0 {
      var j := if relations[n - 1] == Child then from else Nearest(test, n - 1, from);
      assert j >= p[n - 1];
      if n > 1 && relations[n - 2] == Child { assert relations[n - 1] == Child; }
      GreedyComplete(test, relations, n - 1, j - 1, p);
    }
  }

  /** A greedy match is a match. */
  lemma MatchSound(test: Test, relations: seq<Relation>, k: nat)
    requires test(|relations|, k) && Greedy(test, relations, |relations|, k - 1)
    ensures Matches(test, relations, k)
  {
    var n := |relations|;
    var p := GreedySound(test, relations, n, k - 1);
    var q := p + [k];
    forall i | 0 <= i < n ensures q[i] < q[i + 1] && (relations[i] == Child ==> q[i] + 1 == q[i + 1]) {
      if i < n - 1 { assert p[i] < p[i + 1]; }
    }
    assert Embedding(test, relations, k, q);
  }

  /** With child combinators last, every match is found greedily. */
  lemma MatchComplete(test: Test, relations: seq<Relation>, k: nat)
    requires ChildrenLast(relations) && Matches(test, relations, k)
    ensures test(|relations|, k) && Greedy(test, relations, |relations|, k - 1)
  {
    var p :| Embedding(test, relations, k, p);
    GreedyComplete(test, relations, |relations|, k - 1, p);
  }

  /** Compounds up to i + 1 in place, the others one further in. */
  function Place(i: nat, t: nat): nat {
    if t <= i + 1 then t else t + 1
  }

  lemma LastChildBeforeDescendant(relations: seq<Relation>) returns (i: nat)
    requires !ChildrenLast(relations)
    ensures i + 1 < |relations| && relations[i] == Child && relations[i + 1] == Descendant
  {
    var a, b :| 0 <= a < b < |relations| && relations[a] == Child && relations[b] == Descendant;
    i := a;
    while relations[i + 1] == Child
      invariant a <= i < b && relations[i] == Child
      decreases b - i
    {
      i := i + 1;
    }
  }

  lemma {:induction false} GreedyDeceived(test: Test, relations: seq<Relation>, i: nat, n: nat)
    requires i + 1 < n <= |relations| && relations[i] == Child && relations[i + 1] == Descendant
    requires forall t: nat, q: nat | t <= |relations| && q <= |relations| + 1 ::
               test(t, q) <==> q == Place(i, t) || (t == i + 1 && q == i + 2)
    ensures !Greedy(test, relations, n, n)
    decreases n
  {
    if n == i + 2 {
      assert test(i + 1, i + 2) && !test(i, i + 1);
      assert Nearest(test, i + 1, i + 2) == i + 2;
    } else {
      assert test(n - 1, n);
      GreedyDeceived(test, relations, i, n - 1);
    }
  }

  // ----- compounds -----

  function Lower(s: string): (r: string)
    ensures |r| == |s|
  {
    seq(|s|, i requires 0 <= i < |s| => LowerChar(s[i]))
  }

  function LowerChar(c: char): char {
    if 'A' <= c <= 'Z' then c - 'A' + 'a' else c
  }

  predicate IsMarker(c: char) {
    c == '.' || c == '#'
  }

  /** Length of the prefix before the first marker. */
  function Plain(s: string): (n: nat)
    ensures n <= |s| && (n < |s| ==> IsMarker(s[n])) && forall i | 0 <= i < n :: !IsMarker(s[i])
  {
    if |s| == 0 || IsMarker(s[0]) then 0 else 1 + Plain(s[1..])
  }

  predicate IsSpace(c: char) {
    c == ' ' || c == '\t'
  }

  /** s[a..b] is a maximal run of non-space characters. */
  predicate IsWord(s: string, a: nat, b: nat) {
    && a < b <= |s| && (forall i | a <= i < b :: !IsSpace(s[i]))
    && (a == 0 || IsSpace(s[a - 1])) && (b == |s| || IsSpace(s[b]))
  }

  predicate HasWord(s: string, token: string) {
    exists a: nat, b: nat | a < b <= |s| :: IsWord(s, a, b) && Lower(s[a..b]) == token
  }

  /** The class test scans the words of the attribute from the left. */
  method HasClass(classes: string, token: string) returns (found: bool)
    requires |token| > 0
    ensures found == HasWord(classes, token)
  {
    var cursor := 0;
    while cursor < |classes|
      invariant cursor <= |classes| && (cursor == 0 || cursor == |classes| || IsSpace(classes[cursor]))
      invariant forall a: nat, b: nat | a < b <= |classes| && IsWord(classes, a, b) && a < cursor :: Lower(classes[a..b]) != token
      decreases |classes| - cursor
    {
      var start := cursor;
      while cursor < |classes| && IsSpace(classes[cursor])
        invariant start <= cursor <= |classes| && forall i | start <= i < cursor :: IsSpace(classes[i])
      {
        cursor := cursor + 1;
      }
      var end := cursor;
      while end < |classes| && !IsSpace(classes[end])
        invariant cursor <= end <= |classes| && forall i | cursor <= i < end :: !IsSpace(classes[i])
      {
        end := end + 1;
      }
      if Lower(classes[cursor..end]) == token {
        assert IsWord(classes, cursor, end);
        return true;
      }
      forall a: nat, b: nat | a < b <= |classes| && IsWord(classes, a, b) && start <= a < end
        ensures a == cursor && b == end
      {
        assert !IsSpace(classes[a]) && !IsSpace(classes[b - 1]);
        assert a > 0 ==> IsSpace(classes[a - 1]);
        assert b < |classes| ==> IsSpace(classes[b]);
        assert end < |classes| ==> IsSpace(classes[end]);
      }
      cursor := end;
    }
    return false;
  }

  predicate TokenHolds(marker: char, token: string, e: Element) {
    if marker == '#' then e.id.Some? && Lower(e.id.value) == token
    else e.classes.Some? && HasWord(e.classes.value, token)
  }

  /** Marked tokens, all of which must hold; an empty token never does. */
  predicate TokensHold(s: string, e: Element)
    requires |s| > 0 ==> IsMarker(s[0])
  {
    |s| == 0 ||
    (var n := Plain(s[1..]);
     n > 0 && TokenHolds(s[0], s[1..][..n], e) && TokensHold(s[1..][n..], e))
  }

  predicate CompoundHolds(s: string, e: Element) {
    s == "*" ||
    (var n := Plain(s);
     (n > 0 ==> Lower(s[..n]) == Lower(e.tag)) && TokensHold(s[n..], e))
  }

  predicate IsToken(t: string) {
    |t| > 0 && forall i | 0 <= i < |t| :: !IsMarker(t[i])
  }

  lemma {:induction false} PlainIs(s: string, n: nat)
    requires n <= |s| && (n < |s| ==> IsMarker(s[n])) && forall i | 0 <= i < n :: !IsMarker(s[i])
    ensures Plain(s) == n
  {
    if n > 0 { PlainIs(s[1..], n - 1); }
  }

  lemma {:induction false} TokensExtend(s: string, marker: char, t: string, e: Element)
    requires (|s| > 0 ==> IsMarker(s[0])) && IsMarker(marker) && IsToken(t)
    ensures TokensHold(s + [marker] + t, e) <==> TokensHold(s, e) && TokenHolds(marker, t, e)
    decreases |s|
  {
    hide TokenHolds, Plain;
    var whole := s + [marker] + t;
    if s == "" {
      assert whole[1..] == t && t[..|t|] == t && t[|t|..] == "";
      PlainIs(t, |t|);
      NoTokens(e);
    } else {
      var n := Plain(s[1..]);
      var rest := s[1..][n..];
      assert whole[1..] == s[1..] + [marker] + t;
      PlainIs(whole[1..], n);
      assert whole[1..][..n] == s[1..][..n] && whole[1..][n..] == rest + [marker] + t;
      TokensExtend(rest, marker, t, e);
    }
  }

  /** A compound may be extended by an id or a class, which must hold as well: "#t" of the id, ".t" of one word of the
      class attribute, each in lower case. */
  lemma CompoundExtend(c: string, t: string, e: Element)
    requires c != "*" && IsToken(t)
    ensures CompoundHolds(c + "#" + t, e) <==> CompoundHolds(c, e) && e.id.Some? && Lower(e.id.value) == t
    ensures CompoundHolds(c + "." + t, e) <==> CompoundHolds(c, e) && e.classes.Some? && HasWord(e.classes.value, t)
  {
    hide HasWord, Lower;
    Extended(c, '#', t, e);
    Extended(c, '.', t, e);
    assert [ '#' ] == "#" && [ '.' ] == ".";
  }

  lemma Extended(c: string, marker: char, t: string, e: Element)
    requires c != "*" && IsMarker(marker) && IsToken(t)
    ensures CompoundHolds(c + [marker] + t, e) <==> CompoundHolds(c, e) && TokenHolds(marker, t, e)
  {
    hide TokenHolds, TokensHold, Lower;
    var whole, n := c + [marker] + t, Plain(c);
    PlainIs(whole, n);
    assert |whole| > 1 && whole != "*";
    assert whole[..n] == c[..n] && whole[n..] == c[n..] + [marker] + t;
    TokensExtend(c[n..], marker, t, e);
  }

  /** The empty compound holds of everything, and a bare name of elements with that tag in either case. */
  lemma CompoundStart(t: string, e: Element)
    requires IsToken(t) && t != "*"
    ensures CompoundHolds("", e) && (CompoundHolds(t, e) <==> Lower(t) == Lower(e.tag))
  {
    hide Lower;
    PlainIs(t, |t|);
    assert t[..|t|] == t && t[|t|..] == "";
    NoTokens(e);
  }

  /** A star holds of everything on its own, but with an id or class behind it only of elements tagged "*". */
  lemma StarOnlyAlone(t: string, e: Element)
    requires IsToken(t)
    ensures CompoundHolds("*", e)
    ensures CompoundHolds("*#" + t, e) <==> Lower(e.tag) == "*" && CompoundHolds("#" + t, e)
    ensures CompoundHolds("*." + t, e) <==> Lower(e.tag) == "*" && CompoundHolds("." + t, e)
  {
    hide HasWord;
    Starred('#', t, e);
    Starred('.', t, e);
    assert "*" + [ '#' ] + t == "*#" + t && "*" + [ '.' ] + t == "*." + t && [ '#' ] == "#" && [ '.' ] == ".";
  }

  lemma Starred(marker: char, t: string, e: Element)
    requires IsMarker(marker) && IsToken(t)
    ensures CompoundHolds("*" + [marker] + t, e) <==> Lower(e.tag) == "*" && CompoundHolds([marker] + t, e)
  {
    hide TokenHolds, TokensHold;
    var whole := "*" + [marker] + t;
    PlainIs(whole, 1);
    PlainIs([marker] + t, 0);
    assert |whole| > 1 && whole != "*" && whole[..1] == "*" && whole[1..] == [marker] + t;
    assert Lower("*") == "*";
    assert ([marker] + t)[0..] == [marker] + t && ([marker] + t)[0] != '*';
  }

  lemma TokensAt(s: string, index: nat, e: Element)
    requires index < |s| && IsMarker(s[index])
    ensures var n := Plain(s[index + 1..]);
            TokensHold(s[index..], e) ==
            (n > 0 && TokenHolds(s[index], s[index + 1..index + 1 + n], e) && TokensHold(s[index + 1 + n..], e))
  {
    hide TokenHolds, Plain;
    var rest := s[index..];
    var n := Plain(s[index + 1..]);
    assert rest[1..] == s[index + 1..];
    assert s[index + 1..index + 1 + n] == rest[1..][..n] && s[index + 1 + n..] == rest[1..][n..];
  }

  method CompoundMatches(s: string, e: Element) returns (ok: bool)
    requires |s| > 0
    ensures ok == CompoundHolds(s, e)
  {
    hide TokensHold, Lower;
    if s == "*" {
      return true;
    }
    var index := 0;
    if !IsMarker(s[0]) {
      index := Plain(s);
      if Lower(s[..index]) != Lower(e.tag) {
        return false;
      }
    }
    ok := TokensMatch(s, index, e);
  }

  method TokensMatch(s: string, start: nat, e: Element) returns (ok: bool)
    requires start <= |s| && (start < |s| ==> IsMarker(s[start]))
    ensures ok == TokensHold(s[start..], e)
  {
    hide TokenHolds, TokensHold, Plain;
    var index := start;
    while index < |s|
      invariant index <= |s| && (index < |s| ==> IsMarker(s[index]))
      invariant TokensHold(s[start..], e) == TokensHold(s[index..], e)
    {
      TokensAt(s, index, e);
      var n := Plain(s[index + 1..]);
      if n == 0 {
        return false;
      }
      var holds := TokenMatches(s[index], s[index + 1..index + 1 + n], e);
      if !holds {
        return false;
      }
      index := index + 1 + n;
    }
    assert s[index..] == "";
    NoTokens(e);
    return true;
  }

  lemma NoTokens(e: Element)
    ensures TokensHold("", e)
  {
  }

  method TokenMatches(marker: char, token: string, e: Element) returns (ok: bool)
    requires |token| > 0
    ensures ok == TokenHolds(marker, token, e)
  {
    if marker == '#' {
      return e.id.Some? && Lower(e.id.value) == token;
    }
    if e.classes.None? {
      return false;
    }
    ok := HasClass(e.classes.value, token);
  }

  // ----- parsing -----

  const MAX_COMPOUNDS := 8

  predicate Ends(c: char) {
    c == '>' || IsSpace(c)
  }

  function CompoundLength(s: string): (n: nat)
    ensures n <= |s| && (n < |s| ==> Ends(s[n])) && forall i | 0 <= i < n :: !Ends(s[i])
  {
    if |s| == 0 || Ends(s[0]) then 0 else 1 + CompoundLength(s[1..])
  }

  function SkipSpaces(s: string): (r: string)
    ensures |r| <= |s| && (|r| > 0 ==> !IsSpace(r[0])) && (|s| > 0 && !IsSpace(s[0]) ==> r == s)
  {
    if |s| > 0 && IsSpace(s[0]) then SkipSpaces(s[1..]) else s
  }

  datatype Parsed = Parsed(compounds: seq<string>, relations: seq<Relation>)

  function Finish(compounds: seq<string>, relations: seq<Relation>): Option<Parsed> {
    if |compounds| == 0 || |relations| < |compounds| - 1 then None
    else Some(Parsed(compounds, relations[..|compounds| - 1]))
  }

  /** The rest of a selector behind the compounds read so far; more than eight are refused. */
  function ParseFrom(s: string, compounds: seq<string>, relations: seq<Relation>): (r: Option<Parsed>)
    ensures r.Some? ==> |r.value.compounds| == |r.value.relations| + 1
    decreases |s|
  {
    var s1 := SkipSpaces(s);
    if |s| == 0 then Finish(compounds, relations)
    else if |compounds| >= MAX_COMPOUNDS then None
    else if |s1| == 0 then Finish(compounds, relations)
    else
      var n := CompoundLength(s1);
      if n == 0 then None
      else
        var next := SkipSpaces(s1[n..]);
        if |next| == 0 then Finish(compounds + [s1[..n]], relations)
        else if next[0] == '>' then ParseFrom(next[1..], compounds + [s1[..n]], relations + [Child])
        else ParseFrom(next, compounds + [s1[..n]], relations + [Descendant])
  }

  function Parse(s: string): (r: Option<Parsed>)
    ensures r.Some? ==> |r.value.compounds| == |r.value.relations| + 1
  {
    ParseFrom(s, [], [])
  }

  predicate IsCompound(s: string) {
    |s| > 0 && forall i | 0 <= i < |s| :: !Ends(s[i])
  }

  function Combinator(r: Relation): string {
    if r == Child then ">" else " "
  }

  function Render(p: Parsed): string
    requires |p.compounds| == |p.relations| + 1
    decreases |p.compounds|
  {
    if |p.relations| == 0 then p.compounds[0]
    else p.compounds[0] + Combinator(p.relations[0]) + Render(Parsed(p.compounds[1..], p.relations[1..]))
  }

  lemma RenderStarts(p: Parsed)
    requires |p.compounds| == |p.relations| + 1 && forall i | 0 <= i < |p.compounds| :: IsCompound(p.compounds[i])
    ensures |Render(p)| > 0 && !Ends(Render(p)[0])
  {
  }

  lemma CompoundLengthIs(s: string, n: nat)
    requires n <= |s| && (n < |s| ==> Ends(s[n])) && forall i | 0 <= i < n :: !Ends(s[i])
    ensures CompoundLength(s) == n
  {
  }

  lemma SplitCompound(c: string, rest: string)
    requires IsCompound(c) && (|rest| > 0 ==> Ends(rest[0]))
    ensures CompoundLength(c + rest) == |c| && (c + rest)[..|c|] == c && (c + rest)[|c|..] == rest
    ensures SkipSpaces(c + rest) == c + rest
  {
    var s := c + rest;
    assert forall i | 0 <= i < |c| :: s[i] == c[i];
    CompoundLengthIs(s, |c|);
  }

  /** Every selector of at most eight compounds is parsed to itself. */
  lemma {:induction false} ParseRender(p: Parsed, compounds: seq<string>, relations: seq<Relation>)
    requires |p.compounds| == |p.relations| + 1 && forall i | 0 <= i < |p.compounds| :: IsCompound(p.compounds[i])
    requires |compounds| == |relations| && |compounds| + |p.compounds| <= MAX_COMPOUNDS
    ensures ParseFrom(Render(p), compounds, relations) == Some(Parsed(compounds + p.compounds, relations + p.relations))
    decreases |p.compounds|
  {
    hide IsCompound, ParseFrom;
    var c := p.compounds[0];
    if |p.relations| == 0 {
      ParseLast(c, compounds, relations);
      assert p.compounds == [c] && relations + p.relations == relations;
    } else {
      var q := Parsed(p.compounds[1..], p.relations[1..]);
      var r := p.relations[0];
      RenderStarts(q);
      ParseNext(c, r, Render(q), compounds, relations);
      ParseRender(q, compounds + [c], relations + [r]);
      assert compounds + p.compounds == compounds + [c] + q.compounds;
      assert relations + p.relations == relations + [r] + q.relations;
    }
  }

  lemma ParseLast(c: string, compounds: seq<string>, relations: seq<Relation>)
    requires IsCompound(c) && |compounds| == |relations| < MAX_COMPOUNDS
    ensures ParseFrom(c, compounds, relations) == Some(Parsed(compounds + [c], relations))
  {
    SplitCompound(c, "");
    hide CompoundLength;
    assert c + "" == c && c[..|c|] == c && c[|c|..] == "";
    assert relations[..|compounds + [c]| - 1] == relations;
  }

  lemma ParseNext(c: string, r: Relation, rest: string, compounds: seq<string>, relations: seq<Relation>)
    requires IsCompound(c) && |compounds| < MAX_COMPOUNDS && |rest| > 0 && !Ends(rest[0])
    ensures ParseFrom(c + Combinator(r) + rest, compounds, relations) == ParseFrom(rest, compounds + [c], relations + [r])
  {
    var tail := Combinator(r) + rest;
    SplitCompound(c, tail);
    assert tail[1..] == rest;
    assert SkipSpaces(tail) == if r == Child then tail else rest;
    hide CompoundLength, SkipSpaces, IsCompound;
    assert c + Combinator(r) + rest == c + tail;
    assert |c| > 0 by { CompoundNonempty(c); }
  }

  lemma CompoundNonempty(c: string)
    requires IsCompound(c)
    ensures |c| > 0
  {
  }

  /** Reads compounds and combinators from left to right. */
  method ParseSelector(selector: string) returns (r: Option<Parsed>)
    ensures r == Parse(selector)
  {
    hide CompoundLength, SkipSpaces;
    var rest := selector;
    var compounds, relations := [], [];
    while |rest| > 0 && |compounds| < MAX_COMPOUNDS
      invariant ParseFrom(rest, compounds, relations) == Parse(selector)
      decreases |rest|
    {
      var s1 := SkipSpaces(rest);
      if |s1| == 0 {
        return Finish(compounds, relations);
      }
      var n := CompoundLength(s1);
      if n == 0 {
        return None;
      }
      var next := SkipSpaces(s1[n..]);
      compounds := compounds + [s1[..n]];
      if |next| == 0 {
        return Finish(compounds, relations);
      }
      if next[0] == '>' {
        relations := relations + [Child];
        next := next[1..];
      } else {
        relations := relations + [Descendant];
      }
      rest := next;
    }
    return if |rest| > 0 then None else Finish(compounds, relations);
  }

  /** Compound i of the selector against position j of the chain of ancestors and the element itself. */
  function TestOf(compounds: seq<string>, chain: seq<Element>): Test {
    (i: nat, j: nat) => i < |compounds| && j < |chain| && CompoundHolds(compounds[i], chain[j])
  }

  /** The code's answer: the last compound holds for the element, and the others are found greedily. */
  predicate FoundBy(p: Parsed, chain: seq<Element>)
    requires |p.compounds| == |p.relations| + 1 && |chain| > 0
  {
    var test := TestOf(p.compounds, chain);
    test(|p.relations|, |chain| - 1) && Greedy(test, p.relations, |p.relations|, |chain| - 2)
  }

  /** The right answer. */
  ghost predicate Selects(p: Parsed, chain: seq<Element>)
    requires |chain| > 0
  {
    Matches(TestOf(p.compounds, chain), p.relations, |chain| - 1)
  }

  /** A selector text with these combinators. */
  predicate Spells(selector: string, relations: seq<Relation>) {
    Parse(selector).Some? && Parse(selector).value.relations == relations
  }

  lemma {:induction false} ParsedCompounds(s: string, compounds: seq<string>, relations: seq<Relation>)
    requires forall i | 0 <= i < |compounds| :: |compounds[i]| > 0
    ensures ParseFrom(s, compounds, relations).Some? ==>
              forall i | 0 <= i < |ParseFrom(s, compounds, relations).value.compounds| ::
                |ParseFrom(s, compounds, relations).value.compounds[i]| > 0
    decreases |s|
  {
    hide CompoundLength, SkipSpaces;
    var s1 := SkipSpaces(s);
    if |s| > 0 && |compounds| < MAX_COMPOUNDS && |s1| > 0 {
      var n := CompoundLength(s1);
      if n > 0 {
        var next := SkipSpaces(s1[n..]);
        if |next| > 0 {
          if next[0] == '>' {
            ParsedCompounds(next[1..], compounds + [s1[..n]], relations + [Child]);
          } else {
            ParsedCompounds(next, compounds + [s1[..n]], relations + [Descendant]);
          }
        }
      }
    }
  }

  /** Matches an element below its ancestors. The answer yes is always right; the answer no is right whenever no
      child combinator stands left of a descendant combinator. */
  method SelectorMatches(selector: string, element: Element, ancestors: seq<Element>) returns (found: bool)
    ensures found <==> Parse(selector).Some? && FoundBy(Parse(selector).value, ancestors + [element])
    ensures found ==> Selects(Parse(selector).value, ancestors + [element])
    ensures Parse(selector).Some? && ChildrenLast(Parse(selector).value.relations) ==>
              (found <==> Selects(Parse(selector).value, ancestors + [element]))
  {
    hide Parse, Matches, ChildrenLast, CompoundHolds;
    var parsed := ParseSelector(selector);
    if parsed.None? {
      return false;
    }
    assert forall i | 0 <= i < |parsed.value.compounds| :: |parsed.value.compounds[i]| > 0 by { ParsedNonempty(selector); }
    var compounds, relations := parsed.value.compounds, parsed.value.relations;
    FoundSelects(parsed.value, ancestors + [element]);
    var last := CompoundMatches(compounds[|relations|], element);
    if !last {
      return false;
    }
    found := WalkUp(compounds, relations, element, ancestors);
  }

  lemma FoundSelects(p: Parsed, chain: seq<Element>)
    requires |p.compounds| == |p.relations| + 1 && |chain| > 0
    ensures FoundBy(p, chain) ==> Selects(p, chain)
    ensures ChildrenLast(p.relations) && Selects(p, chain) ==> FoundBy(p, chain)
  {
    hide Matches, ChildrenLast, CompoundHolds, Greedy;
    var test, k := TestOf(p.compounds, chain), |chain| - 1;
    if FoundBy(p, chain) { MatchSound(test, p.relations, k); }
    if ChildrenLast(p.relations) && Selects(p, chain) { MatchComplete(test, p.relations, k); }
  }

  lemma ParsedNonempty(selector: string)
    requires Parse(selector).Some?
    ensures forall i | 0 <= i < |Parse(selector).value.compounds| :: |Parse(selector).value.compounds[i]| > 0
  {
    ParsedCompounds(selector, [], []);
  }

  /** The nearest ancestor at or before `start` that the compound matches, or -1. */
  method FindNearest(compounds: seq<string>, i: nat, start: int, ghost element: Element, ancestors: seq<Element>)
    returns (from: int)
    requires i < |compounds| && |compounds[i]| > 0 && -1 <= start < |ancestors|
    ensures from == Nearest(TestOf(compounds, ancestors + [element]), i, start)
  {
    hide CompoundHolds;
    from := start;
    while from >= 0
      invariant -1 <= from <= start
      invariant Nearest(TestOf(compounds, ancestors + [element]), i, from) ==
                Nearest(TestOf(compounds, ancestors + [element]), i, start)
    {
      var hit := CompoundMatches(compounds[i], ancestors[from]);
      if hit {
        return;
      }
      from := from - 1;
    }
  }

  /** The loop over the remaining compounds, from the right. */
  method WalkUp(compounds: seq<string>, relations: seq<Relation>, ghost element: Element, ancestors: seq<Element>)
    returns (found: bool)
    requires |compounds| == |relations| + 1 && forall i | 0 <= i < |compounds| :: |compounds[i]| > 0
    ensures found == Greedy(TestOf(compounds, ancestors + [element]), relations, |relations|, |ancestors| - 1)
  {
    hide CompoundHolds;
    ghost var test := TestOf(compounds, ancestors + [element]);
    var from := |ancestors| - 1;
    var segment := |relations|;
    while segment > 0
      invariant 0 <= segment <= |relations| && -1 <= from < |ancestors|
      invariant Greedy(test, relations, segment, from) == Greedy(test, relations, |relations|, |ancestors| - 1)
    {
      if relations[segment - 1] == Child {
        if from < 0 {
          return false;
        }
        var ok := CompoundMatches(compounds[segment - 1], ancestors[from]);
        if !ok {
          return false;
        }
        from := from - 1;
      } else {
        from := FindNearest(compounds, segment - 1, from, element, ancestors);
        if from < 0 {
          return false;
        }
        from := from - 1;
      }
      segment := segment - 1;
    }
    return true;
  }

  function Tag(t: string): Element {
    Element(t, None, None)
  }

  // ----- exactly which selectors are answered right -----

  /** Eight different one-letter names. */
  function Name(t: nat): string
    requires t < MAX_COMPOUNDS
  {
    ["abcdefgh"[t]]
  }

  lemma NameHolds(t: nat, u: nat)
    requires t < MAX_COMPOUNDS && u < MAX_COMPOUNDS
    ensures CompoundHolds(Name(t), Tag(Name(u))) <==> t == u
    ensures IsCompound(Name(t))
  {
    var c, tag := Name(t), Name(u);
    assert Plain(c) == 1 && c[..1] == c && c[1..] == "";
    assert Lower(c) == c && Lower(tag) == tag;
  }

  function Names(n: nat): (r: seq<string>)
    requires n <= MAX_COMPOUNDS
    ensures |r| == n && forall t: nat | t < n :: r[t] == Name(t)
  {
    seq(n, t requires 0 <= t < n => Name(t))
  }

  /** Every compound's name in order, that of compound i + 1 twice. */
  function Deceptive(i: nat, n: nat): (r: seq<Element>)
    requires i + 1 < n < MAX_COMPOUNDS
    ensures |r| == n + 2 && forall q: nat | q < n + 2 :: r[q] == Tag(Name(if q <= i + 1 then q else q - 1))
  {
    seq(n + 2, q requires 0 <= q < n + 2 => Tag(Name(if q <= i + 1 then q else q - 1)))
  }

  lemma DeceptiveTest(i: nat, n: nat, t: nat, q: nat)
    requires i + 1 < n < MAX_COMPOUNDS && t <= n && q <= n + 1
    ensures TestOf(Names(n + 1), Deceptive(i, n))(t, q) <==> q == Place(i, t) || (t == i + 1 && q == i + 2)
  {
    hide CompoundHolds, Name;
    NameHolds(t, if q <= i + 1 then q else q - 1);
  }

  /** With a child combinator left of a descendant combinator, some element that the selector means is missed: the
      nearest candidate for the compound between the two has the wrong parent and a farther one the right parent. */
  lemma MatchMissed(relations: seq<Relation>) returns (selector: string, chain: seq<Element>)
    requires !ChildrenLast(relations) && |relations| < MAX_COMPOUNDS
    ensures Spells(selector, relations) && |chain| > 0
    ensures var p := Parse(selector).value; Selects(p, chain) && !FoundBy(p, chain)
  {
    hide Parse, Render, CompoundHolds, Greedy, Name, TestOf;
    var i := LastChildBeforeDescendant(relations);
    var n := |relations|;
    var p := Parsed(Names(n + 1), relations);
    selector := NamesSpell(p);
    chain := Deceptive(i, n);
    var test := TestOf(p.compounds, chain);
    forall t: nat, q: nat | t <= n && q <= n + 1
      ensures test(t, q) <==> q == Place(i, t) || (t == i + 1 && q == i + 2)
    {
      DeceptiveTest(i, n, t, q);
    }
    PlacesEmbed(test, relations, i);
    GreedyDeceived(test, relations, i, n);
  }

  lemma PlacesEmbed(test: Test, relations: seq<Relation>, i: nat)
    requires i + 1 < |relations| && relations[i + 1] == Descendant
    requires forall t: nat | t <= |relations| :: test(t, Place(i, t))
    ensures Matches(test, relations, |relations| + 1)
  {
    var n := |relations|;
    var p := seq(n + 1, t requires 0 <= t => Place(i, t));
    assert Embedding(test, relations, n + 1, p);
  }

  lemma NamesSpell(p: Parsed) returns (selector: string)
    requires |p.relations| < MAX_COMPOUNDS && p.compounds == Names(|p.relations| + 1)
    ensures Parse(selector) == Some(p)
  {
    hide Render, Name, ParseFrom, IsCompound;
    forall t | 0 <= t < |p.compounds| ensures IsCompound(p.compounds[t]) { NameHolds(t, t); }
    ParseRender(p, [], []);
    assert [] + p.compounds == p.compounds && [] + p.relations == p.relations;
    selector := Render(p);
  }

  /** Every answer to every selector text with these combinators is right exactly when child combinators come last. */
  lemma CompleteIff(relations: seq<Relation>)
    requires |relations| < MAX_COMPOUNDS
    ensures ChildrenLast(relations) <==>
            forall selector: string, chain: seq<Element> | Spells(selector, relations) && |chain| > 0 ::
              Selects(Parse(selector).value, chain) <==> FoundBy(Parse(selector).value, chain)
  {
    hide Parse, Matches, CompoundHolds, ChildrenLast, Selects, FoundBy;
    if ChildrenLast(relations) {
      forall selector: string, chain: seq<Element> | Spells(selector, relations) && |chain| > 0
        ensures Selects(Parse(selector).value, chain) <==> FoundBy(Parse(selector).value, chain)
      {
        FoundSelects(Parse(selector).value, chain);
      }
    } else {
      var selector, chain := MatchMissed(relations);
    }
  }

  /** The selector "a>b c" on the chain a, b, b, c: the match with the outer b is missed. */
  lemma MissedExample()
    ensures Parse("a>b c") == Some(Parsed(["a", "b", "c"], [Child, Descendant]))
    ensures var test := TestOf(["a", "b", "c"], [Tag("a"), Tag("b"), Tag("b"), Tag("c")]);
            Matches(test, [Child, Descendant], 3) && !Greedy(test, [Child, Descendant], 2, 2)
  {
    hide ParseFrom, TestOf, Matches, Greedy;
    ExampleParsed(Parsed(["a", "b", "c"], [Child, Descendant]));
    var test := ExampleTest();
    ExampleMissed(test);
  }

  lemma ExampleTest() returns (test: Test)
    ensures test == TestOf(["a", "b", "c"], [Tag("a"), Tag("b"), Tag("b"), Tag("c")])
    ensures test(0, 0) && test(1, 1) && test(1, 2) && test(2, 3) && !test(0, 1)
  {
    hide CompoundHolds;
    test := TestOf(["a", "b", "c"], [Tag("a"), Tag("b"), Tag("b"), Tag("c")]);
    assert Name(0) == "a" && Name(1) == "b" && Name(2) == "c";
    NameHolds(0, 0);
    NameHolds(1, 1);
    NameHolds(2, 2);
    NameHolds(0, 1);
  }

  lemma ExampleMissed(test: Test)
    requires test(0, 0) && test(1, 1) && test(1, 2) && test(2, 3) && !test(0, 1)
    ensures Matches(test, [Child, Descendant], 3) && !Greedy(test, [Child, Descendant], 2, 2)
  {
    assert Embedding(test, [Child, Descendant], 3, [0, 1, 3]);
    assert Nearest(test, 1, 2) == 2;
  }

  lemma ExampleParsed(p: Parsed)
    requires p == Parsed(["a", "b", "c"], [Child, Descendant])
    ensures Parse("a>b c") == Some(p)
  {
    RenderExample(p);
    assert forall i | 0 <= i < 3 :: IsCompound(p.compounds[i]);
    hide ParseFrom, IsCompound;
    ParseRender(p, [], []);
    assert [] + p.compounds == p.compounds && [] + p.relations == p.relations;
  }

  lemma RenderExample(p: Parsed)
    requires p == Parsed(["a", "b", "c"], [Child, Descendant])
    ensures Render(p) == "a>b c"
  {
    assert p.compounds[1..] == ["b", "c"] && p.relations[1..] == [Descendant];
    assert ["b", "c"][1..] == ["c"] && [Descendant][1..] == [];
    assert Render(Parsed(["c"], [])) == "c";
    assert Render(Parsed(["b", "c"], [Descendant])) == "b c";
  }
}
