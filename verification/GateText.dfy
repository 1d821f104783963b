/** From numbered tokens to the texts the gate compares: when equal texts mean equal
    tokens. */
module GateText {
  import opened Gate

  // ---- folding blanks commutes with renaming --------------------------------------

  lemma {:induction false} FoldSolid(p: string, s: string, after: bool)
    requires p != [] && forall i :: 0 <= i < |p| ==> !IsBlank(p[i])
    ensures FoldText(p + s, after) == p + FoldText(s, false)
    decreases |p|
  {
    assert (p + s)[1..] == p[1..] + s;
    if |p| == 1 {
      assert p[1..] + s == s;
    } else {
      FoldSolid(p[1..], s, false);
    }
    assert p == [p[0]] + p[1..];
  }

  lemma PieceSolid(t: Token<nat>)
    requires t.Lit? ==> !IsBlank(t.c)
    ensures forall i :: 0 <= i < |Piece(t)| ==> !IsBlank(Piece(t)[i])
  {
  }

  lemma {:induction false} FoldRendered(ts: seq<Token<nat>>, after: bool)
    ensures FoldText(Render(ts), after) == Render(FoldTokens(ts, after))
    decreases |ts|
  {
    if ts != [] {
      var rest := ts[1..];
      if ts[0].Lit? && IsBlank(ts[0].c) {
        FoldRendered(rest, true);
        assert Render(ts)[1..] == Render(rest);
        if !after { assert FoldTokens(ts, after)[1..] == FoldTokens(rest, true); }
        else { assert FoldTokens(ts, after) == FoldTokens(rest, true); }
      } else {
        FoldRendered(rest, false);
        PieceSolid(ts[0]);
        FoldSolid(Piece(ts[0]), Render(rest), after);
        assert FoldTokens(ts, after)[1..] == FoldTokens(rest, false);
      }
    }
  }

  lemma {:induction false} FoldNumbered(ts: seq<Token<string>>, seen: seq<string>, after: bool)
    ensures FoldTokens(Canonical(ts, seen), after) == Canonical(FoldTokens(ts, after), seen)
    decreases |ts|
  {
    if ts != [] {
      var c := Canonical(ts, seen);
      assert c[1..] == Canonical(ts[1..], Grown(seen, ts[0]));
      if ts[0].Lit? && IsBlank(ts[0].c) {
        FoldNumbered(ts[1..], seen, true);
        if !after {
          assert FoldTokens(ts, after)[1..] == FoldTokens(ts[1..], true);
        } else {
          assert FoldTokens(ts, after) == FoldTokens(ts[1..], true);
        }
      } else {
        FoldNumbered(ts[1..], Grown(seen, ts[0]), false);
        assert FoldTokens(ts, after)[1..] == FoldTokens(ts[1..], false);
      }
    }
  }

  lemma CanonRendered(text: string)
    ensures Canon(text) == Render(Canonical(Shape(text), []))
  {
    hide Tokens, Canonical, Render, FoldText;
    FoldRendered(Canonical(Tokens(text), []), false);
    FoldNumbered(Tokens(text), [], false);
  }

  // ---- the tokens are the matches of the pattern -----------------------------------

  /** The text a token was taken from: a byte, or "@@F" or ",F" and a number. */
  function Taken(t: Token<string>): (s: string)
    ensures s != []
  {
    match t
    case Lit(c) => [c]
    case Ref(at, name) => (if at then "@@F" else ",F") + name
  }

  function Source(ts: seq<Token<string>>): string { if ts == [] then "" else Taken(ts[0]) + Source(ts[1..]) }

  /** "@@F" or ",F" and a digit begin at place i. */
  predicate ReferenceAt(t: string, i: nat) {
    || (i + 3 < |t| && t[i..i + 3] == "@@F" && '0' <= t[i + 3] <= '9')
    || (i + 2 < |t| && t[i..i + 2] == ",F" && '0' <= t[i + 2] <= '9')
  }

  /** The bytes at place i are the beginning of no reference. */
  lemma NoReference(t: string, i: nat)
    requires i < |t| && (t[i] != '@' || (i + 1 < |t| && t[i + 1] != '@')) && t[i] != ','
    ensures !ReferenceAt(t, i)
  {
    if i + 3 < |t| { assert t[i..i + 3][0] == t[i] && t[i..i + 3][1] == t[i + 1]; }
    if i + 2 < |t| { assert t[i..i + 2][0] == t[i]; }
  }

  lemma MatchIs(t: string)
    ensures Match(t) != 0 <==> ReferenceAt(t, 0)
    ensures Match(t) != 0 ==> t[..Match(t)] == if Match(t) == 3 then "@@F" else ",F"
  {
    if |t| >= 4 { assert t[0..3] == [t[0], t[1], t[2]]; }
    if |t| >= 3 { assert t[0..2] == [t[0], t[1]]; }
  }

  /** How much of t its first token takes. */
  function Length(t: string): (k: nat)
    requires t != []
    ensures 1 <= k <= |t|
  {
    if Match(t) == 0 then 1 else Match(t) + DigitsOf(t[Match(t)..])
  }

  lemma FirstToken(t: string)
    requires t != []
    ensures Tokens(t) != [] && Tokens(t)[1..] == Tokens(t[Length(t)..]) && Taken(Tokens(t)[0]) == t[..Length(t)]
    ensures Tokens(t)[0].Ref? <==> ReferenceAt(t, 0)
    ensures Tokens(t)[0].Lit? ==> Length(t) == 1
  {
    hide ReferenceAt;
    MatchIs(t);
    var n, k := Match(t), Length(t);
    assert Tokens(t)[1..] == Tokens(t[k..]);
    if n != 0 { assert t[..k] == t[..n] + t[n..k]; }
  }

  /** No reference begins inside another. */
  lemma InsideReference(t: string, i: nat)
    requires ReferenceAt(t, 0) && 0 < i < Length(t)
    ensures !ReferenceAt(t, i)
  {
    MatchIs(t);
    var n := Match(t);
    hide ReferenceAt;
    if i >= n { assert t[n..][i - n] == t[i]; } else { assert t[..n][i] == t[i]; }
    if i + 1 == n { assert IsDigit(t[n]); } else if i < n { assert t[..n][i + 1] == t[i + 1]; }
    NoReference(t, i);
  }

  lemma SourceHead(ts: seq<Token<string>>, first: string, rest: seq<Token<string>>)
    requires ts != [] && Taken(ts[0]) == first && ts[1..] == rest
    ensures Source(ts) == first + Source(rest)
  {
    hide Taken;
  }

  lemma SourceStep(t: string)
    requires t != []
    ensures Source(Tokens(t)) == t[..Length(t)] + Source(Tokens(t[Length(t)..]))
  {
    hide Source, ReferenceAt, Match, DigitsOf, Length;
    FirstToken(t);
    SourceHead(Tokens(t), t[..Length(t)], Tokens(t[Length(t)..]));
  }

  /** The tokens are the text, cut up. */
  lemma {:induction false} TokensAre(t: string)
    ensures Source(Tokens(t)) == t
    decreases |t|
  {
    hide ReferenceAt, Taken, Match, DigitsOf, Length;
    if t != [] {
      TokensAre(t[Length(t)..]);
      SourceStep(t);
    }
  }

  /** A reference has a number, and takes all its digits. */
  lemma {:induction false} TokensNamed(t: string)
    ensures Greedy(Tokens(t))
    ensures forall i :: 0 <= i < |Tokens(t)| && Tokens(t)[i].Ref? ==>
              Tokens(t)[i].name != "" && AllDigits(Tokens(t)[i].name)
    decreases |t|
  {
    TokensGreedy(t);
    if t != [] {
      FirstToken(t);
      TokensNamed(t[Length(t)..]);
      if Tokens(t)[0].Ref? { FirstName(t); }
      hide AllDigits, Greedy;
      var ts := Tokens(t);
      forall i | 0 <= i < |ts| && ts[i].Ref? ensures ts[i].name != "" && AllDigits(ts[i].name) {
        if i > 0 { assert ts[i] == ts[1..][i - 1]; }
      }
    }
  }

  predicate AllDigits(s: string) { forall j :: 0 <= j < |s| ==> '0' <= s[j] <= '9' }

  lemma FirstName(t: string)
    requires t != [] && Tokens(t)[0].Ref?
    ensures Tokens(t)[0].name != "" && AllDigits(Tokens(t)[0].name)
  {
    var n := Match(t);
    var k := n + DigitsOf(t[n..]);
    assert Tokens(t)[0] == Ref(n == 3, t[n..k]);
    forall j | 0 <= j < k - n ensures IsDigit(t[n..k][j]) { assert t[n..k][j] == t[n..][j]; }
  }

  /** Every match of the pattern in the text is a reference, wherever it is. */
  lemma {:induction false} ReferenceFound(t: string, i: nat) returns (j: nat)
    requires ReferenceAt(t, i)
    ensures j < |Tokens(t)| && |Source(Tokens(t)[..j])| == i
    ensures Tokens(t)[j].Ref? && (Tokens(t)[j].at <==> t[i] == '@')
    decreases |t|
  {
    var k := Length(t);
    FirstToken(t);
    var ts := Tokens(t);
    if i == 0 {
      j := 0;
      assert Taken(ts[0])[0] == t[0];
    } else {
      hide Tokens, Taken, ReferenceAt;
      if i < k && ReferenceAt(t, 0) { InsideReference(t, i); }
      LaterReference(t, k, i);
      j := ReferenceFound(t[k..], i - k);
      assert ts[..j + 1][0] == ts[0] && ts[..j + 1][1..] == ts[1..][..j];
      j := j + 1;
    }
  }

  lemma LaterReference(t: string, k: nat, i: nat)
    requires k <= i && ReferenceAt(t, i)
    ensures ReferenceAt(t[k..], i - k)
  {
    var u := t[k..];
    if i + 3 < |t| { assert u[i - k..i - k + 3] == t[i..i + 3] && u[i - k + 3] == t[i + 3]; }
    assert u[i - k..i - k + 2] == t[i..i + 2] && u[i - k + 2] == t[i + 2];
  }

  // ---- blanks ----------------------------------------------------------------------

  /** A text without blanks is not changed. */
  lemma {:induction false} FoldNothing(s: string, after: bool)
    requires forall i :: 0 <= i < |s| ==> s[i] != ' ' && s[i] != '\t'
    ensures FoldText(s, after) == s
    decreases |s|
  {
    if s != [] {
      FoldNothing(s[1..], false);
      assert s == [s[0]] + s[1..];
    }
  }

  lemma FoldHead(s: string, after: bool)
    requires s != ""
    ensures FoldText(s, after) ==
            (if !IsBlank(s[0]) then [s[0]] else if after then "" else " ") + FoldText(s[1..], IsBlank(s[0]))
  {
  }

  /** A run of blanks becomes one blank, and what is in front of it and behind it is folded
      by itself. */
  lemma {:induction false} FoldRun(x: string, run: string, y: string, after: bool)
    requires run != "" && forall i :: 0 <= i < |run| ==> run[i] == ' ' || run[i] == '\t'
    requires (x != "" ==> x[|x| - 1] != ' ' && x[|x| - 1] != '\t') && (y != "" ==> y[0] != ' ' && y[0] != '\t')
    ensures FoldText(x + run + y, after) ==
            FoldText(x, after) + (if after && x == "" then "" else " ") + FoldText(y, false)
    decreases |x| + |run|
  {
    hide FoldText;
    var t := x + run + y;
    FoldHead(t, after);
    if x != "" {
      assert t[1..] == x[1..] + run + y;
      FoldHead(x, after);
      FoldRun(x[1..], run, y, IsBlank(x[0]));
    } else {
      FoldNothing(x, after);
      if |run| == 1 {
        assert t[1..] == y;
        FoldBehind(y);
      } else {
        assert t[1..] == x + run[1..] + y;
        FoldNothing(x, true);
        FoldRun(x, run[1..], y, true);
      }
    }
  }

  /** Whether a blank has gone by does not matter in front of something else. */
  lemma FoldBehind(y: string)
    requires y != "" ==> y[0] != ' ' && y[0] != '\t'
    ensures FoldText(y, true) == FoldText(y, false)
  {
  }

  // ---- no digit follows a reference -----------------------------------------------

  predicate StartsDigit<T>(ts: seq<Token<T>>) { ts != [] && ts[0].Lit? && IsDigit(ts[0].c) }

  /** The pattern takes all the digits there are. */
  predicate Greedy<T>(ts: seq<Token<T>>)
    decreases |ts|
  {
    ts == [] || ((ts[0].Ref? ==> !StartsDigit(ts[1..])) && Greedy(ts[1..]))
  }

  lemma {:induction false} TokensGreedy(t: string)
    ensures Greedy(Tokens(t)) && (t == [] || !IsDigit(t[0]) ==> !StartsDigit(Tokens(t)))
    decreases |t|
  {
    if t != [] {
      var n := Match(t);
      var k := if n == 0 then 1 else n + DigitsOf(t[n..]);
      TokensGreedy(t[k..]);
      assert Tokens(t)[1..] == Tokens(t[k..]);
      if n != 0 && k < |t| { assert t[n..][k - n] == t[k]; }
    }
  }

  lemma {:induction false} FoldGreedy<T>(ts: seq<Token<T>>, after: bool)
    requires Greedy(ts)
    ensures Greedy(FoldTokens(ts, after))
    ensures !after && !StartsDigit(ts) ==> !StartsDigit(FoldTokens(ts, after))
    decreases |ts|
  {
    if ts != [] {
      var blank := ts[0].Lit? && IsBlank(ts[0].c);
      FoldGreedy(ts[1..], blank);
      if !(blank && after) { assert FoldTokens(ts, after)[1..] == FoldTokens(ts[1..], blank); }
      else { assert FoldTokens(ts, after) == FoldTokens(ts[1..], blank); }
    }
  }

  lemma {:induction false} CanonicalGreedy(ts: seq<Token<string>>, seen: seq<string>)
    requires Greedy(ts)
    ensures Greedy(Canonical(ts, seen)) && (StartsDigit(Canonical(ts, seen)) <==> StartsDigit(ts))
    decreases |ts|
  {
    if ts != [] {
      CanonicalGreedy(ts[1..], Grown(seen, ts[0]));
      assert Canonical(ts, seen)[1..] == Canonical(ts[1..], Grown(seen, ts[0]));
    }
  }

  // ---- a number is read back from the text ----------------------------------------

  function Value(s: string): nat
    requires forall i :: 0 <= i < |s| ==> IsDigit(s[i])
    decreases |s|
  {
    if s == [] then 0 else
    var c := s[|s| - 1];
    assert IsDigit(c);
    Value(s[..|s| - 1]) * 10 + (c - '0') as nat
  }

  lemma {:induction false} DecValue(k: nat)
    ensures Value(Dec(k)) == k
    decreases k
  {
    if k >= 10 {
      DecValue(k / 10);
      assert Dec(k)[..|Dec(k)| - 1] == Dec(k / 10);
    } else {
      assert Dec(k)[..|Dec(k)| - 1] == [];
    }
  }

  lemma SameDigits(p: string, q: string, s: string, t: string)
    requires p + s == q + t && |p| <= |q|
    requires forall i :: 0 <= i < |q| ==> IsDigit(q[i])
    requires s == [] || !IsDigit(s[0])
    ensures p == q && s == t
  {
    var w := p + s;
    assert forall i :: 0 <= i < |q| ==> w[i] == q[i];
    assert s != [] ==> w[|p|] == s[0];
    assert p == (p + s)[..|p|] && q == (q + t)[..|q|];
    assert s == (p + s)[|p|..] && t == (q + t)[|q|..];
  }

  lemma DecSplit(j: nat, k: nat, s: string, t: string)
    requires Dec(j) + s == Dec(k) + t
    requires (s == [] || !IsDigit(s[0])) && (t == [] || !IsDigit(t[0]))
    ensures j == k && s == t
  {
    hide Dec;
    if |Dec(j)| <= |Dec(k)| { SameDigits(Dec(j), Dec(k), s, t); } else { SameDigits(Dec(k), Dec(j), t, s); }
    DecValue(j);
    DecValue(k);
  }

  // ---- the marker that stands in plain text ---------------------------------------

  predicate LitAt<T>(ts: seq<Token<T>>, i: nat, c: char) { i < |ts| && ts[i] == Lit(c) }

  /** "@@F#" or ",F#" standing in the text itself. */
  predicate PlainMarker<T>(ts: seq<Token<T>>) {
    || (LitAt(ts, 0, '@') && LitAt(ts, 1, '@') && LitAt(ts, 2, 'F') && LitAt(ts, 3, '#'))
    || (LitAt(ts, 0, ',') && LitAt(ts, 1, 'F') && LitAt(ts, 2, '#'))
  }

  /** In order, for every marker: is it a reference? */
  function Marks<T>(ts: seq<Token<T>>): seq<bool>
    decreases |ts|
  {
    if ts == [] then []
    else (if ts[0].Ref? then [true] else if PlainMarker(ts) then [false] else []) + Marks(ts[1..])
  }

  predicate Unmarked<T>(ts: seq<Token<T>>)
    decreases |ts|
  {
    ts == [] || (!PlainMarker(ts) && Unmarked(ts[1..]))
  }

  lemma {:induction false} MarksNumbered(ts: seq<Token<string>>, seen: seq<string>)
    ensures Marks(Canonical(ts, seen)) == Marks(ts) && (Unmarked(Canonical(ts, seen)) <==> Unmarked(ts))
    decreases |ts|
  {
    if ts != [] {
      MarksNumbered(ts[1..], Grown(seen, ts[0]));
      assert Canonical(ts, seen)[1..] == Canonical(ts[1..], Grown(seen, ts[0]));
      MarkerNumbered(ts, seen);
    }
  }

  lemma {:induction false} LitNumbered(ts: seq<Token<string>>, seen: seq<string>, i: nat, c: char)
    ensures LitAt(Canonical(ts, seen), i, c) <==> LitAt(ts, i, c)
    decreases |ts|
  {
    if ts != [] && i > 0 {
      LitNumbered(ts[1..], Grown(seen, ts[0]), i - 1, c);
      assert Canonical(ts, seen)[1..] == Canonical(ts[1..], Grown(seen, ts[0]));
    }
  }

  lemma MarkerNumbered(ts: seq<Token<string>>, seen: seq<string>)
    ensures PlainMarker(Canonical(ts, seen)) <==> PlainMarker(ts)
  {
    hide Canonical, LitAt;
    LitNumbered(ts, seen, 0, '@');
    LitNumbered(ts, seen, 1, '@');
    LitNumbered(ts, seen, 2, 'F');
    LitNumbered(ts, seen, 3, '#');
    LitNumbered(ts, seen, 0, ',');
    LitNumbered(ts, seen, 1, 'F');
    LitNumbered(ts, seen, 2, '#');
  }

  // ---- equal texts, equal tokens --------------------------------------------------

  lemma RenderStart(ts: seq<Token<nat>>)
    requires !StartsDigit(ts)
    ensures Render(ts) == [] || !IsDigit(Render(ts)[0])
  {
  }

  /** A text that begins like a token's does begin with that token, or a reference. */
  lemma RenderLit(ts: seq<Token<nat>>, c: char, s: string)
    requires Render(ts) == [c] + s && c != '@' && c != ','
    ensures LitAt(ts, 0, c) && Render(ts[1..]) == s
  {
    assert Render(ts)[0] == c;
    assert Render(ts)[1..] == s;
    assert ts[0].Lit? ==> Render(ts)[1..] == Render(ts[1..]);
  }

  lemma PieceHead(t: Token<nat>)
    ensures t.Ref? && Piece(t)[0] == '@' ==> |Piece(t)| > 1 && Piece(t)[1] == '@'
  {
  }

  /** A byte at the front that is a token by itself. */
  lemma RenderByte(ts: seq<Token<nat>>, c: char, s: string)
    requires Render(ts) == [c] + s && ts != [] && ts[0].Lit?
    ensures ts[0] == Lit(c) && Render(ts[1..]) == s
  {
    assert Render(ts)[0] == c && Render(ts)[1..] == s;
    assert Render(ts) == [ts[0].c] + Render(ts[1..]);
  }

  /** One '@' begins no reference. */
  lemma RenderOneAt(ts: seq<Token<nat>>, s: string)
    requires Render(ts) == ['@'] + (['F'] + s)
    ensures ts != [] && ts[0] == Lit('@') && Render(ts[1..]) == ['F'] + s
  {
    hide Dec;
    assert Render(ts)[0] == '@' && Render(ts)[1] == 'F';
    PieceHead(ts[0]);
    RenderByte(ts, '@', ['F'] + s);
  }

  lemma RenderAt(ts: seq<Token<nat>>, s: string)
    requires Render(ts) == "@@F#" + s && ts[0].Lit?
    ensures PlainMarker(ts)
  {
    hide Render, Piece, Dec;
    assert "@@F#" + s == ['@'] + (['@'] + (['F'] + (['#'] + s)));
    RenderNone(ts);
    RenderByte(ts, '@', ['@'] + (['F'] + (['#'] + s)));
    RenderOneAt(ts[1..], ['#'] + s);
    RenderLit(ts[1..][1..], 'F', ['#'] + s);
    RenderLit(ts[1..][1..][1..], '#', s);
  }

  lemma RenderNone(ts: seq<Token<nat>>)
    ensures Render(ts) != "" ==> ts != []
  {
  }

  lemma SameHead(a: char, s: string, b: char, t: string)
    requires [a] + s == [b] + t
    ensures a == b && s == t
  {
    assert ([a] + s)[0] == a && ([b] + t)[0] == b && ([a] + s)[1..] == s && ([b] + t)[1..] == t;
  }

  lemma RenderComma(ts: seq<Token<nat>>, s: string)
    requires Render(ts) == ",F#" + s && ts[0].Lit?
    ensures PlainMarker(ts)
  {
    LitText(ts);
    hide Render;
    Three(',', 'F', '#', s);
    assert ['F', '#'] + s == ['F'] + (['#'] + s);
    SameHead(ts[0].c, Render(ts[1..]), ',', ['F', '#'] + s);
    RenderLit(ts[1..], 'F', ['#'] + s);
    RenderLit(ts[1..][1..], '#', s);
  }

  lemma RefText(x: seq<Token<nat>>)
    requires x != [] && x[0].Ref?
    ensures Render(x) == (if x[0].at then "@@F#" else ",F#") + (Dec(x[0].name) + Render(x[1..]))
  {
    assert Prefix(x[0].at) + "F#" == if x[0].at then "@@F#" else ",F#";
  }

  /** A reference against plain text: the text has the marker there. */
  lemma RefMeetsLit(x: seq<Token<nat>>, y: seq<Token<nat>>)
    requires Render(x) == Render(y) && x != [] && y != [] && x[0].Ref? && y[0].Lit?
    ensures PlainMarker(y)
  {
    hide Render, PlainMarker, Dec;
    var s := Dec(x[0].name) + Render(x[1..]);
    RefText(x);
    if x[0].at { RenderAt(y, s); } else { RenderComma(y, s); }
  }

  lemma PrefixSplit(at: bool, to: bool, s: string, t: string)
    requires (if at then "@@F#" else ",F#") + s == (if to then "@@F#" else ",F#") + t
    ensures at == to && s == t
  {
    var p, q := if at then "@@F#" else ",F#", if to then "@@F#" else ",F#";
    assert (p + s)[0] == p[0] && (q + t)[0] == q[0];
    assert (p + s)[|p|..] == s && (q + t)[|q|..] == t;
  }

  lemma RefMeetsRef(x: seq<Token<nat>>, y: seq<Token<nat>>)
    requires Render(x) == Render(y) && x != [] && y != [] && x[0].Ref? && y[0].Ref? && Greedy(x) && Greedy(y)
    ensures x[0] == y[0] && Render(x[1..]) == Render(y[1..])
  {
    hide Render, Dec;
    RefText(x);
    RefText(y);
    PrefixSplit(x[0].at, y[0].at, Dec(x[0].name) + Render(x[1..]), Dec(y[0].name) + Render(y[1..]));
    RenderStart(x[1..]);
    RenderStart(y[1..]);
    DecSplit(x[0].name, y[0].name, Render(x[1..]), Render(y[1..]));
  }

  lemma LitMeetsLit(x: seq<Token<nat>>, y: seq<Token<nat>>)
    requires Render(x) == Render(y) && x != [] && y != [] && x[0].Lit? && y[0].Lit?
    ensures x[0] == y[0] && Render(x[1..]) == Render(y[1..])
  {
    assert Render(x)[0] == x[0].c && Render(y)[0] == y[0].c;
    assert Render(x)[1..] == Render(x[1..]) && Render(y)[1..] == Render(y[1..]);
  }

  predicate Told(x: seq<Token<nat>>, y: seq<Token<nat>>) {
    Marks(x) == Marks(y) || (Unmarked(x) && Unmarked(y))
  }

  lemma ToldRest(x: seq<Token<nat>>, y: seq<Token<nat>>)
    requires Told(x, y) && x != [] && y != [] && x[0] == y[0] && (PlainMarker(x) <==> PlainMarker(y))
    ensures Told(x[1..], y[1..])
  {
    if Marks(x) == Marks(y) {
      var h := if x[0].Ref? then [true] else if PlainMarker(x) then [false] else [];
      assert Marks(x)[|h|..] == Marks(x[1..]) && Marks(y)[|h|..] == Marks(y[1..]);
    }
  }

  /** Equal texts come from equal tokens, when the markers in the two agree on which
      are references. */
  lemma {:induction false} RenderInjective(x: seq<Token<nat>>, y: seq<Token<nat>>)
    requires Render(x) == Render(y) && Greedy(x) && Greedy(y) && Told(x, y)
    ensures x == y
    decreases |x|
  {
    hide Render, PlainMarker, Told;
    RenderEmpty(x, y);
    if x != [] {
      SameKind(x, y);
      if x[0].Ref? { RefMeetsRef(x, y); } else { LitMeetsLit(x, y); }
      SameMarker(x, y);
      ToldRest(x, y);
      RenderInjective(x[1..], y[1..]);
      assert x == [x[0]] + x[1..] && y == [y[0]] + y[1..];
    }
  }

  lemma RenderEmpty(x: seq<Token<nat>>, y: seq<Token<nat>>)
    requires Render(x) == Render(y)
    ensures x == [] <==> y == []
  {
  }

  lemma MarksHead(x: seq<Token<nat>>)
    requires x != []
    ensures x[0].Ref? ==> Marks(x) != [] && Marks(x)[0]
    ensures x[0].Lit? && PlainMarker(x) ==> Marks(x) != [] && !Marks(x)[0] && !Unmarked(x)
  {
  }

  lemma SameKind(x: seq<Token<nat>>, y: seq<Token<nat>>)
    requires Render(x) == Render(y) && x != [] && y != [] && Told(x, y)
    ensures x[0].Ref? <==> y[0].Ref?
  {
    MarksHead(x);
    MarksHead(y);
    hide Render, PlainMarker, Marks, Unmarked;
    if x[0].Ref? && y[0].Lit? { RefMeetsLit(x, y); }
    if y[0].Ref? && x[0].Lit? { RefMeetsLit(y, x); }
  }

  lemma MarkerText(x: seq<Token<nat>>) returns (s: string)
    requires PlainMarker(x)
    ensures Render(x) == if LitAt(x, 0, '@') then "@@F#" + s else ",F#" + s
  {
    hide Render;
    if LitAt(x, 0, '@') {
      TwoLits(x);
      TwoLits(x[2..]);
      s := Render(x[2..][2..]);
      Four('@', '@', 'F', '#', s);
    } else {
      LitText(x);
      TwoLits(x[1..]);
      s := Render(x[1..][2..]);
      Three(',', 'F', '#', s);
    }
  }

  lemma TwoLits(x: seq<Token<nat>>)
    requires |x| >= 2 && x[0].Lit? && x[1].Lit?
    ensures Render(x) == [x[0].c, x[1].c] + Render(x[2..])
  {
    LitText(x);
    LitText(x[1..]);
    hide Render;
    assert x[1..][1..] == x[2..];
    assert [x[0].c] + ([x[1].c] + Render(x[2..])) == [x[0].c, x[1].c] + Render(x[2..]);
  }

  lemma Three(a: char, b: char, c: char, s: string)
    ensures [a] + ([b, c] + s) == [a, b, c] + s
  {
  }

  lemma Four(a: char, b: char, c: char, d: char, s: string)
    ensures [a, b] + ([c, d] + s) == [a, b, c, d] + s
  {
  }

  lemma LitText(x: seq<Token<nat>>)
    requires x != [] && x[0].Lit?
    ensures Render(x) == [x[0].c] + Render(x[1..])
  {
  }

  lemma MarkerCarries(x: seq<Token<nat>>, y: seq<Token<nat>>)
    requires Render(x) == Render(y) && y != [] && y[0].Lit? && PlainMarker(x)
    ensures PlainMarker(y)
  {
    hide Render;
    var s := MarkerText(x);
    if LitAt(x, 0, '@') { RenderAt(y, s); } else { RenderComma(y, s); }
  }

  lemma SameMarker(x: seq<Token<nat>>, y: seq<Token<nat>>)
    requires Render(x) == Render(y) && x != [] && y != [] && x[0] == y[0]
    ensures PlainMarker(x) <==> PlainMarker(y)
  {
    hide Render;
    if PlainMarker(x) { MarkerCarries(x, y); }
    if PlainMarker(y) { MarkerCarries(y, x); }
  }

  // ---- the gate -------------------------------------------------------------------

  lemma ShapeGreedy(text: string)
    ensures Greedy(Canonical(Shape(text), []))
  {
    TokensGreedy(text);
    FoldGreedy(Tokens(text), false);
    CanonicalGreedy(Shape(text), []);
  }

  /** The gate says yes to every renumbering.  It says yes to nothing else if and only
      if the two files agree, marker by marker, on which are references and which stand
      in the text as they are. */
  lemma GateExact(a: string, b: string)
    ensures Equivalent(Shape(a), Shape(b)) <==> Canon(a) == Canon(b) && Marks(Shape(a)) == Marks(Shape(b))
  {
    hide Shape, Canon, Canonical, Render, Equivalent, Marks;
    NumberingComplete(Shape(a), Shape(b));
    CanonRendered(a);
    CanonRendered(b);
    MarksNumbered(Shape(a), []);
    MarksNumbered(Shape(b), []);
    if Canon(a) == Canon(b) && Marks(Shape(a)) == Marks(Shape(b)) {
      ShapeGreedy(a);
      ShapeGreedy(b);
      RenderInjective(Canonical(Shape(a), []), Canonical(Shape(b), []));
    }
  }

  /** The text of a file has the marker in it. */
  predicate HasMarker(t: string)
    decreases |t|
  {
    t != [] && (MarkerHere(t) || HasMarker(t[1..]))
  }

  predicate MarkerHere(t: string) {
    || (|t| >= 4 && t[0] == '@' && t[1] == '@' && t[2] == 'F' && t[3] == '#')
    || (|t| >= 3 && t[0] == ',' && t[1] == 'F' && t[2] == '#')
  }

  /** On files without it - what the compiler writes - the gate decides exactly whether
      a one-to-one renaming turns one into the other. */
  lemma GateDecides(a: string, b: string)
    requires !HasMarker(a) && !HasMarker(b)
    ensures Canon(a) == Canon(b) <==> Equivalent(Shape(a), Shape(b))
  {
    hide Shape, Canon, Canonical, Render, Equivalent, Marks, HasMarker;
    GateExact(a, b);
    if Canon(a) == Canon(b) {
      CanonRendered(a);
      CanonRendered(b);
      NumberingComplete(Shape(a), Shape(b));
      ShapeUnmarked(a);
      ShapeUnmarked(b);
      MarksNumbered(Shape(a), []);
      MarksNumbered(Shape(b), []);
      ShapeGreedy(a);
      ShapeGreedy(b);
      RenderInjective(Canonical(Shape(a), []), Canonical(Shape(b), []));
    }
  }

  lemma ShapeUnmarked(t: string)
    requires !HasMarker(t)
    ensures Unmarked(Shape(t))
  {
    TokensUnmarked(t);
    FoldUnmarked(Tokens(t), false);
  }

  lemma {:induction false} TokensLit(t: string, i: nat, c: char)
    requires forall j :: 0 <= j <= i ==> j < |Tokens(t)| && Tokens(t)[j].Lit?
    requires LitAt(Tokens(t), i, c)
    ensures i < |t| && t[i] == c
    decreases i
  {
    assert Tokens(t)[0].Lit?;
    if i > 0 {
      assert Tokens(t)[1..] == Tokens(t[1..]);
      TokensLit(t[1..], i - 1, c);
    }
  }

  lemma TokensMarker(t: string)
    requires PlainMarker(Tokens(t))
    ensures MarkerHere(t)
  {
    hide Tokens;
    if LitAt(Tokens(t), 0, '@') {
      TokensLit(t, 0, '@');
      TokensLit(t, 1, '@');
      TokensLit(t, 2, 'F');
      TokensLit(t, 3, '#');
    } else {
      TokensLit(t, 0, ',');
      TokensLit(t, 1, 'F');
      TokensLit(t, 2, '#');
    }
  }

  lemma {:induction false} HasMarkerLater(t: string, k: nat)
    requires k <= |t| && HasMarker(t[k..])
    ensures HasMarker(t)
    decreases k
  {
    if k == 0 {
      assert t[0..] == t;
    } else {
      assert t[1..][k - 1..] == t[k..];
      HasMarkerLater(t[1..], k - 1);
    }
  }

  lemma {:induction false} TokensUnmarked(t: string)
    requires !HasMarker(t)
    ensures Unmarked(Tokens(t))
    decreases |t|
  {
    if t != [] {
      var n := Match(t);
      var k := if n == 0 then 1 else n + DigitsOf(t[n..]);
      if HasMarker(t[k..]) { HasMarkerLater(t, k); }
      TokensUnmarked(t[k..]);
      assert Tokens(t)[1..] == Tokens(t[k..]);
      if PlainMarker(Tokens(t)) { TokensMarker(t); }
    }
  }

  lemma {:induction false} FoldUnmarked<T>(ts: seq<Token<T>>, after: bool)
    requires Unmarked(ts)
    ensures Unmarked(FoldTokens(ts, after))
    decreases |ts|
  {
    if ts != [] {
      var blank := ts[0].Lit? && IsBlank(ts[0].c);
      FoldUnmarked(ts[1..], blank);
      if blank && after {
        assert FoldTokens(ts, after) == FoldTokens(ts[1..], true);
      } else {
        assert FoldTokens(ts, after)[1..] == FoldTokens(ts[1..], blank);
        if !blank && PlainMarker(FoldTokens(ts, after)) { FoldMarker(ts); }
      }
    }
  }

  /** A marker is not made by folding blanks. */
  lemma FoldMarker<T>(ts: seq<Token<T>>)
    requires PlainMarker(FoldTokens(ts, false))
    ensures PlainMarker(ts)
  {
    FoldSolidHead(ts);
    FoldSolidHead(ts[1..]);
    FoldSolidHead(ts[1..][1..]);
    if LitAt(FoldTokens(ts, false), 0, '@') { FoldSolidHead(ts[1..][1..][1..]); }
  }

  lemma FoldSolidHead<T>(ts: seq<Token<T>>)
    requires FoldTokens(ts, false) != [] && FoldTokens(ts, false)[0] != Lit(' ')
    ensures ts != [] && ts[0] == FoldTokens(ts, false)[0] && FoldTokens(ts, false)[1..] == FoldTokens(ts[1..], false)
  {
  }

  /** Why the marker matters: the number's own "F#" can stand in a file. */
  lemma GateFooled()
    ensures Canon("@@F#0") == Canon("@@F5") && !Equivalent(Shape("@@F#0"), Shape("@@F5"))
  {
    hide Canonical, Render, Marks, Shape, Canon, Equivalent;
    var a, b := "@@F#0", "@@F5";
    GateExact(a, b);
    CanonRendered(a);
    CanonRendered(b);
    PlainShape();
    OneReference();
  }

  lemma PlainFolded()
    ensures var x: seq<Token<string>> := [Lit('@'), Lit('@'), Lit('F'), Lit('#'), Lit('0')]; FoldTokens(x, false) == x
  {
  }

  lemma PlainCanonical()
    ensures var x: seq<Token<string>> := [Lit('@'), Lit('@'), Lit('F'), Lit('#'), Lit('0')];
      Canonical(x, []) == [Lit('@'), Lit('@'), Lit('F'), Lit('#'), Lit('0')]
  {
  }

  lemma PlainRendered()
    ensures Render([Lit('@'), Lit('@'), Lit('F'), Lit('#'), Lit('0')]) == "@@F#0"
  {
    var x: seq<Token<nat>> := [Lit('@'), Lit('@'), Lit('F'), Lit('#'), Lit('0')];
    TwoLits(x);
    TwoLits(x[2..]);
    LitText(x[4..]);
    assert Render(x[5..]) == "";
  }

  lemma PlainMarked()
    ensures var x: seq<Token<string>> := [Lit('@'), Lit('@'), Lit('F'), Lit('#'), Lit('0')]; Marks(x) == [false]
  {
  }

  lemma PlainShape()
    ensures var x := Canonical(Shape("@@F#0"), []); Render(x) == "@@F#0" && Marks(Shape("@@F#0")) == [false]
  {
    PlainTokens();
    PlainFolded();
    PlainCanonical();
    PlainRendered();
    PlainMarked();
    hide Render, Marks, Canonical, FoldTokens;
  }

  lemma PlainTokens()
    ensures Tokens("@@F#0") == [Lit('@'), Lit('@'), Lit('F'), Lit('#'), Lit('0')]
  {
  }

  lemma OneReference()
    ensures var x := Canonical(Shape("@@F5"), []); Render(x) == "@@F#0" && Marks(Shape("@@F5")) == [true]
  {
    var x: seq<Token<string>> := [Ref(true, "5")];
    var t := "@@F5";
    assert t[3..] == "5" && t[3..4] == "5" && "5"[1..] == "" && t[4..] == "";
    assert DigitsOf("5") == 1;
    assert Tokens(t) == x;
    assert FoldTokens(x, false) == x;
    assert Canonical(x, []) == [Ref(true, 0)];
  }
}
