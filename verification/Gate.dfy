/** The build gate's test that two assembler files differ only in how their static
    functions are numbered: renaming every "@@Fn" and ",Fn" in order of first
    appearance is meant to decide equality up to a one-to-one renaming. */
module Gate {
  /** What the pattern (@@|,)F(\d+) makes of a text: its matches, and the bytes
      between them.  A reference is to a name; at tells "@@" from ",". */
  datatype Token<T> = Lit(c: char) | Ref(at: bool, name: T)

  predicate IsDigit(c: char) { '0' <= c <= '9' }
  predicate IsBlank(c: char) { c == ' ' || c == '\t' }

  function DigitsOf(t: string): (n: nat)
    ensures n <= |t| && (forall i :: 0 <= i < n ==> IsDigit(t[i])) && (n < |t| ==> !IsDigit(t[n]))
  {
    if t == [] || !IsDigit(t[0]) then 0 else 1 + DigitsOf(t[1..])
  }

  function Prefix(at: bool): string { if at then "@@" else "," }

  /** The length of "@@F" or ",F" if t begins with it and a digit, else 0. */
  function Match(t: string): (n: nat)
    ensures n < |t|  || n == 0
    ensures n != 0 ==> (n == 2 || n == 3) && IsDigit(t[n])
  {
    if |t| > 3 && t[0] == '@' && t[1] == '@' && t[2] == 'F' && IsDigit(t[3]) then 3
    else if |t| > 2 && t[0] == ',' && t[1] == 'F' && IsDigit(t[2]) then 2
    else 0
  }

  function Tokens(t: string): (r: seq<Token<string>>)
    decreases |t|
  {
    if t == [] then [] else
    var n := Match(t);
    if n == 0 then [Lit(t[0])] + Tokens(t[1..]) else
    var k := n + DigitsOf(t[n..]);
    [Ref(n == 3, t[n..k])] + Tokens(t[k..])
  }

  // ---- first-appearance numbering -------------------------------------------------

  function Index(s: seq<string>, x: string): (i: nat)
    requires x in s
    ensures i < |s| && s[i] == x
  {
    if s[0] == x then 0 else 1 + Index(s[1..], x)
  }

  function Grown(seen: seq<string>, t: Token<string>): (r: seq<string>)
    ensures t.Ref? ==> t.name in r
  {
    if t.Ref? && t.name !in seen then seen + [t.name] else seen
  }

  function Numbered(seen: seq<string>, t: Token<string>): Token<nat>
    requires t.Ref? ==> t.name in seen
  {
    if t.Lit? then Lit(t.c) else Ref(t.at, Index(seen, t.name))
  }

  /** Every name replaced by its place in the order of first appearance. */
  function Canonical(ts: seq<Token<string>>, seen: seq<string>): (r: seq<Token<nat>>)
    ensures |r| == |ts|
    decreases |ts|
  {
    if ts == [] then [] else
    [Numbered(Grown(seen, ts[0]), ts[0])] + Canonical(ts[1..], Grown(seen, ts[0]))
  }

  /** The names in order of first appearance. */
  function Seen(ts: seq<Token<string>>, seen: seq<string>): seq<string>
    decreases |ts|
  {
    if ts == [] then seen else Seen(ts[1..], Grown(seen, ts[0]))
  }

  // ---- text -----------------------------------------------------------------------

  function Dec(k: nat): (s: string)
    ensures s != [] && forall i :: 0 <= i < |s| ==> IsDigit(s[i])
  {
    if k < 10 then ['0' + k as char] else Dec(k / 10) + ['0' + (k % 10) as char]
  }

  function Piece(t: Token<nat>): (s: string)
    ensures s != []
  {
    match t
    case Lit(c) => [c]
    case Ref(at, k) => Prefix(at) + "F#" + Dec(k)
  }

  function Render(ts: seq<Token<nat>>): string {
    if ts == [] then "" else Piece(ts[0]) + Render(ts[1..])
  }

  /** Runs of blanks folded; after tells whether a blank has just gone by. */
  function FoldText(s: string, after: bool): string
    decreases |s|
  {
    if s == [] then ""
    else if IsBlank(s[0]) then (if after then "" else " ") + FoldText(s[1..], true)
    else [s[0]] + FoldText(s[1..], false)
  }

  function Canon(text: string): string { FoldText(Render(Canonical(Tokens(text), [])), false) }

  // ---- the code -------------------------------------------------------------------

  /** The substitution: the dictionary gives each new number the count of those
      before it. */
  method Substitute(ts: seq<Token<string>>) returns (out: string)
    ensures out == Render(Canonical(ts, []))
  {
    hide Prefix, Piece, Numbered, Grown, Numbers, Dec;
    var seen: map<string, nat> := map[];
    out := "";
    var i := 0;
    ghost var order: seq<string> := [];
    NoNumbers();
    while i < |ts|
      invariant 0 <= i <= |ts| && Numbers(seen, order)
      invariant out + Render(Canonical(ts[i..], order)) == Render(Canonical(ts, []))
    {
      RenderHead(ts[i..], order);
      assert ts[i..][1..] == ts[i + 1..];
      ghost var before := seen;
      match ts[i] {
        case Lit(c) =>
          out := out + [c];
        case Ref(at, n) =>
          if n !in seen { seen := seen[n := |seen|]; }
          out := out + (Prefix(at) + "F#" + Dec(seen[n]));
      }
      NumbersGrow(before, order, ts[i], seen);
      order := Grown(order, ts[i]);
      i := i + 1;
    }
    assert ts[i..] == [];
  }

  method CanonText(text: string) returns (r: string)
    ensures r == Canon(text)
  {
    var out := Substitute(Tokens(text));
    r := FoldText(out, false);
  }

  lemma NoNumbers()
    ensures Numbers(map[], [])
  {
  }

  lemma RenderHead(ts: seq<Token<string>>, seen: seq<string>)
    requires ts != []
    ensures Render(Canonical(ts, seen)) ==
            Piece(Numbered(Grown(seen, ts[0]), ts[0])) + Render(Canonical(ts[1..], Grown(seen, ts[0])))
  {
    assert Canonical(ts, seen)[1..] == Canonical(ts[1..], Grown(seen, ts[0]));
  }

  lemma NumbersGrow(before: map<string, nat>, order: seq<string>, t: Token<string>, seen: map<string, nat>)
    requires Numbers(before, order)
    requires seen == if t.Ref? && t.name !in before then before[t.name := |before|] else before
    ensures Numbers(seen, Grown(order, t))
    ensures Piece(Numbered(Grown(order, t), t)) ==
            if t.Lit? then [t.c] else Prefix(t.at) + "F#" + Dec(seen[t.name])
  {
    if t.Ref? {
      if t.name !in before { NumbersMore(before, order, t.name); }
      IndexUnique(Grown(order, t), t.name, seen[t.name]);
    }
  }

  ghost predicate Distinct(s: seq<string>) { forall i, j :: 0 <= i < j < |s| ==> s[i] != s[j] }

  ghost predicate Numbers(seen: map<string, nat>, order: seq<string>) {
    && Distinct(order)
    && |seen| == |order|
    && (forall n :: n in seen <==> n in order)
    && (forall n :: n in seen ==> seen[n] < |order| && order[seen[n]] == n)
  }

  lemma NumbersMore(seen: map<string, nat>, order: seq<string>, n: string)
    requires Numbers(seen, order) && n !in seen
    ensures Numbers(seen[n := |seen|], order + [n])
  {
  }

  lemma IndexUnique(s: seq<string>, x: string, i: nat)
    requires Distinct(s) && i < |s| && s[i] == x
    ensures Index(s, x) == i
  {
  }

  method Renumbered(a: string, b: string) returns (r: bool)
    ensures r <==> Canon(a) == Canon(b)
  {
    var x := CanonText(a);
    var y := CanonText(b);
    return x == y;
  }

  // ---- a one-to-one renaming ------------------------------------------------------

  function FoldTokens<T>(ts: seq<Token<T>>, after: bool): (r: seq<Token<T>>)
    decreases |ts|
  {
    if ts == [] then []
    else if ts[0].Lit? && IsBlank(ts[0].c) then (if after then [] else [Lit(' ')]) + FoldTokens(ts[1..], true)
    else [ts[0]] + FoldTokens(ts[1..], false)
  }

  /** What the gate looks at: references and bytes, blanks folded. */
  function Shape(text: string): seq<Token<string>> { FoldTokens(Tokens(text), false) }

  ghost predicate Injective(f: map<string, string>) {
    forall m, n :: m in f && n in f && f[m] == f[n] ==> m == n
  }

  predicate Covers(f: map<string, string>, ts: seq<Token<string>>) {
    forall i :: 0 <= i < |ts| ==> ts[i].Ref? ==> ts[i].name in f
  }

  function Rename(f: map<string, string>, t: Token<string>): Token<string>
    requires t.Ref? ==> t.name in f
  {
    if t.Lit? then t else Ref(t.at, f[t.name])
  }

  /** y is x with its names renamed one-to-one by f. */
  ghost predicate RenamedBy(f: map<string, string>, x: seq<Token<string>>, y: seq<Token<string>>) {
    && Injective(f) && Covers(f, x) && |x| == |y|
    && forall i :: 0 <= i < |x| ==> y[i] == Rename(f, x[i])
  }

  ghost predicate Equivalent(x: seq<Token<string>>, y: seq<Token<string>>) {
    exists f :: RenamedBy(f, x, y)
  }

  // ---- numbering is a complete invariant ------------------------------------------

  ghost predicate Image(f: map<string, string>, s: seq<string>, t: seq<string>) {
    |s| == |t| && forall i :: 0 <= i < |s| ==> s[i] in f && t[i] == f[s[i]]
  }

  /** A renaming does not change the numbering. */
  lemma {:induction false} RenamingKeeps(f: map<string, string>, x: seq<Token<string>>, y: seq<Token<string>>,
                                         s: seq<string>, t: seq<string>)
    requires RenamedBy(f, x, y) && Image(f, s, t) && Distinct(s) && Distinct(t)
    ensures Canonical(x, s) == Canonical(y, t)
    decreases |x|
  {
    if x != [] {
      RenamedRest(f, x, y);
      hide RenamedBy, Index;
      if x[0].Lit? {
        RenamingKeeps(f, x[1..], y[1..], s, t);
      } else if x[0].name in s {
        SameIndex(f, s, t, x[0].name);
        RenamingKeeps(f, x[1..], y[1..], s, t);
      } else {
        NotSeen(f, s, t, x[0].name);
        NewIndex(s, x[0].name);
        NewIndex(t, y[0].name);
        RenamingKeeps(f, x[1..], y[1..], s + [x[0].name], t + [y[0].name]);
      }
    }
  }

  lemma NewIndex(s: seq<string>, n: string)
    requires Distinct(s) && n !in s
    ensures Distinct(s + [n]) && Index(s + [n], n) == |s|
  {
    IndexUnique(s + [n], n, |s|);
  }

  lemma RenamedRest(f: map<string, string>, x: seq<Token<string>>, y: seq<Token<string>>)
    requires RenamedBy(f, x, y) && x != []
    ensures y != [] && RenamedBy(f, x[1..], y[1..]) && Injective(f)
    ensures (x[0].Ref? ==> x[0].name in f) && y[0] == Rename(f, x[0])
  {
  }

  lemma SameIndex(f: map<string, string>, s: seq<string>, t: seq<string>, n: string)
    requires Image(f, s, t) && Distinct(t) && n in s
    ensures n in f && f[n] in t && Index(t, f[n]) == Index(s, n)
  {
    IndexUnique(t, f[n], Index(s, n));
  }

  lemma NotSeen(f: map<string, string>, s: seq<string>, t: seq<string>, n: string)
    requires Injective(f) && Image(f, s, t) && n in f && n !in s
    ensures f[n] !in t
  {
  }

  lemma {:induction false} SeenExtends(x: seq<Token<string>>, s: seq<string>)
    requires Distinct(s)
    ensures Distinct(Seen(x, s)) && s <= Seen(x, s)
    ensures forall i :: 0 <= i < |x| && x[i].Ref? ==> x[i].name in Seen(x, s)
    decreases |x|
  {
    if x != [] {
      var u := if x[0].Ref? && x[0].name !in s then s + [x[0].name] else s;
      SeenExtends(x[1..], u);
      forall i | 0 <= i < |x| && x[i].Ref? ensures x[i].name in Seen(x, s) {
        if i > 0 { assert x[i] == x[1..][i - 1]; } else { assert x[0].name in u; }
      }
    }
  }

  ghost predicate SameNumbers(x: Token<string>, y: Token<string>, s: seq<string>, t: seq<string>) {
    if x.Lit? then y == x else
    y.Ref? && y.at == x.at && x.name in s && y.name in t && Index(s, x.name) == Index(t, y.name)
  }

  /** Equal numberings: the names match place by place. */
  lemma {:induction false} SameNumbering(x: seq<Token<string>>, y: seq<Token<string>>, s: seq<string>, t: seq<string>)
    requires Canonical(x, s) == Canonical(y, t) && Distinct(s) && Distinct(t) && |s| == |t|
    ensures |x| == |y| && |Seen(x, s)| == |Seen(y, t)|
    ensures forall i :: 0 <= i < |x| ==> SameNumbers(x[i], y[i], Seen(x, s), Seen(y, t))
    decreases |x|
  {
    if x != [] {
      HeadNumbers(x, y, s, t);
      var s', t' := Grown(s, x[0]), Grown(t, y[0]);
      SameNumbering(x[1..], y[1..], s', t');
      SeenExtends(x[1..], s');
      SeenExtends(y[1..], t');
      if x[0].Ref? {
        var k := Index(s', x[0].name);
        IndexUnique(Seen(x, s), x[0].name, k);
        IndexUnique(Seen(y, t), y[0].name, k);
      }
      forall i | 0 <= i < |x| ensures SameNumbers(x[i], y[i], Seen(x, s), Seen(y, t)) {
        if i > 0 { assert x[i] == x[1..][i - 1] && y[i] == y[1..][i - 1]; }
      }
    }
  }

  lemma HeadNumbers(x: seq<Token<string>>, y: seq<Token<string>>, s: seq<string>, t: seq<string>)
    requires Canonical(x, s) == Canonical(y, t) && Distinct(s) && Distinct(t) && |s| == |t| && x != []
    ensures y != [] && Canonical(x[1..], Grown(s, x[0])) == Canonical(y[1..], Grown(t, y[0]))
    ensures Distinct(Grown(s, x[0])) && Distinct(Grown(t, y[0])) && |Grown(s, x[0])| == |Grown(t, y[0])|
    ensures SameNumbers(x[0], y[0], Grown(s, x[0]), Grown(t, y[0]))
  {
    var c, d := Canonical(x, s), Canonical(y, t);
    assert c[1..] == Canonical(x[1..], Grown(s, x[0]));
    assert d[1..] == Canonical(y[1..], Grown(t, y[0]));
    GrownNumber(s, x[0]);
    GrownNumber(t, y[0]);
    assert c[0] == d[0];
  }

  /** A new name gets the count of those before it. */
  lemma GrownNumber(s: seq<string>, t: Token<string>)
    requires Distinct(s)
    ensures Distinct(Grown(s, t))
    ensures t.Ref? ==> Index(Grown(s, t), t.name) == (if t.name in s then Index(s, t.name) else |s|)
  {
    if t.Ref? && t.name !in s { IndexUnique(s + [t.name], t.name, |s|); }
  }

  lemma NumberingComplete(x: seq<Token<string>>, y: seq<Token<string>>)
    ensures Canonical(x, []) == Canonical(y, []) <==> Equivalent(x, y)
  {
    if Canonical(x, []) == Canonical(y, []) {
      SameNumbering(x, y, [], []);
      SeenExtends(x, []);
      SeenExtends(y, []);
      var s, t := Seen(x, []), Seen(y, []);
      var f := map n | n in s :: t[Index(s, n)];
      forall m, n | m in f && n in f && f[m] == f[n] ensures m == n {
        IndexUnique(t, f[m], Index(s, m));
        IndexUnique(t, f[m], Index(s, n));
      }
      assert RenamedBy(f, x, y);
    }
    if Equivalent(x, y) {
      var f :| RenamedBy(f, x, y);
      RenamingKeeps(f, x, y, [], []);
    }
  }
}
