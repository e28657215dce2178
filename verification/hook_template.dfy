// Expansion of ${VAR} in hook command lines: ten whole-string replacements
// made one after the other, compared with reading the template once from left
// to right. Text is a sequence of characters (runes).
module HookTemplate {
  import opened Text

  // ---------------------------------------------------------------------
  // Whole-string replacement
  // ---------------------------------------------------------------------

  /** strings.ReplaceAll for a non-empty key: leftmost, non-overlapping. */
  function ReplaceAll(s: string, key: string, value: string): string
    requires key != ""
    decreases |s|
  {
    if s == "" then ""
    else if key <= s then value + ReplaceAll(s[|key|..], key, value)
    else [s[0]] + ReplaceAll(s[1..], key, value)
  }

  /** A table of variables: tokens[j] stands for values[j]. */
  datatype Table = Table(tokens: seq<string>, values: seq<string>) {

    /** What holds of every table ExpandVars builds: a token is a dollar sign,
        an opening brace, a name and a closing brace, tokens are distinct, and
        no value contains any of the three characters. */
    ghost predicate Valid() {
      && |tokens| == |values|
      && (forall j | 0 <= j < |tokens| :: IsToken(tokens[j]))
      && (forall i, j | 0 <= i < j < |tokens| :: tokens[i] != tokens[j])
      && (forall j | 0 <= j < |values| :: Inert(values[j]))
    }
  }

  ghost predicate IsToken(t: string) {
    && |t| >= 3 && t[0] == '$' && t[1] == '{' && t[|t| - 1] == '}'
    && '$' !in t[1..] && '}' !in t[..|t| - 1]
  }

  ghost predicate Inert(v: string) {
    forall i | 0 <= i < |v| :: v[i] != '$' && v[i] != '{' && v[i] != '}'
  }

  /** Replace the variables k, k+1, ... one after the other. */
  function Passes(s: string, t: Table, k: nat): string
    requires |t.tokens| == |t.values| && k <= |t.tokens|
    requires forall j | 0 <= j < |t.tokens| :: t.tokens[j] != ""
    decreases |t.tokens| - k
  {
    if k == |t.tokens| then s else Passes(ReplaceAll(s, t.tokens[k], t.values[k]), t, k + 1)
  }

  // ---------------------------------------------------------------------
  // The reference: one left-to-right reading
  // ---------------------------------------------------------------------

  /** The variable at the front of s, or -1. */
  function TokenAt(s: string, tokens: seq<string>): (j: int)
    ensures -1 <= j < |tokens|
    ensures j >= 0 ==> tokens[j] <= s
    ensures j < 0 ==> forall i | 0 <= i < |tokens| :: !(tokens[i] <= s)
  {
    if tokens == [] then -1
    else if tokens[|tokens| - 1] <= s then |tokens| - 1
    else TokenAt(s, tokens[..|tokens| - 1])
  }

  /** Simultaneous substitution. */
  function Expand(s: string, t: Table): string
    requires |t.tokens| == |t.values|
    requires forall j | 0 <= j < |t.tokens| :: t.tokens[j] != ""
    decreases |s|
  {
    if s == "" then ""
    else
      var j := TokenAt(s, t.tokens);
      if j >= 0 then t.values[j] + Expand(s[|t.tokens[j]|..], t)
      else [s[0]] + Expand(s[1..], t)
  }

  /** The template as the reference reads it. */
  datatype Item = Lit(c: char) | Var(index: nat)

  function Read(s: string, tokens: seq<string>): (items: seq<Item>)
    requires forall j | 0 <= j < |tokens| :: tokens[j] != ""
    ensures forall i | 0 <= i < |items| :: items[i].Var? ==> items[i].index < |tokens|
    decreases |s|
  {
    if s == "" then []
    else
      var j := TokenAt(s, tokens);
      if j >= 0 then [Var(j)] + Read(s[|tokens[j]|..], tokens)
      else [Lit(s[0])] + Read(s[1..], tokens)
  }

  /** The items back as text, with the variables below k already substituted. */
  function Render(items: seq<Item>, t: Table, k: nat): string
    requires |t.tokens| == |t.values|
    requires forall i | 0 <= i < |items| :: items[i].Var? ==> items[i].index < |t.tokens|
  {
    if items == [] then ""
    else RenderItem(items[0], t, k) + Render(items[1..], t, k)
  }

  function RenderItem(item: Item, t: Table, k: nat): string
    requires |t.tokens| == |t.values|
    requires item.Var? ==> item.index < |t.tokens|
  {
    match item
    case Lit(c) => [c]
    case Var(j) => if j < k then t.values[j] else t.tokens[j]
  }

  ghost predicate Over(items: seq<Item>, t: Table) {
    && t.Valid()
    && forall i | 0 <= i < |items| :: items[i].Var? ==> items[i].index < |t.tokens|
  }

  /** items[p..q] forges variable k: it starts with a dollar sign of the
      template itself, uses only variables that are substituted before k, and
      spells k's token once those are substituted. */
  ghost predicate Forges(items: seq<Item>, t: Table, k: nat, p: nat, q: nat)
    requires Over(items, t) && k < |t.tokens|
  {
    && p < q <= |items|
    && items[p] == Lit('$')
    && (forall i | p <= i < q :: items[i].Var? ==> items[i].index < k)
    && Render(items[p..q], t, k) == t.tokens[k]
  }

  /** No stretch of the template forges a variable. */
  ghost predicate NoForgery(s: string, t: Table)
    requires t.Valid()
  {
    NoForgeryFrom(Read(s, t.tokens), t, 0)
  }

  /** Every dollar sign of the template begins a variable. */
  ghost predicate NoLiteralDollar(s: string, t: Table)
    requires t.Valid()
  {
    Lit('$') !in Read(s, t.tokens)
  }

  // ---------------------------------------------------------------------
  // Rendering
  // ---------------------------------------------------------------------

  /** How the reference reads one step: a variable, or one character. */
  lemma ReadStep(s: string, t: Table) returns (item: Item, step: nat)
    requires t.Valid() && s != ""
    ensures 0 < step <= |s|
    ensures Read(s, t.tokens) == [item] + Read(s[step..], t.tokens)
    ensures Read(s, t.tokens)[1..] == Read(s[step..], t.tokens)
    ensures item.Var? ==> item.index < |t.tokens| && t.tokens[item.index] == s[..step]
    ensures item.Lit? ==> step == 1 && item.c == s[0]
    ensures Expand(s, t) == RenderItem(item, t, |t.tokens|) + Expand(s[step..], t)
  {
    var j := TokenAt(s, t.tokens);
    if j >= 0 { item, step := Var(j), |t.tokens[j]|; } else { item, step := Lit(s[0]), 1; }
  }

  lemma RenderFront(item: Item, items: seq<Item>, t: Table, k: nat)
    requires Over(items, t) && (item.Var? ==> item.index < |t.tokens|)
    requires Over([item] + items, t)
    ensures Render([item] + items, t, k) == RenderItem(item, t, k) + Render(items, t, k)
  {
    assert ([item] + items)[1..] == items;
  }

  lemma ItemAtZero(s: string, t: Table, item: Item, step: nat)
    requires |t.tokens| == |t.values| && 0 < step <= |s|
    requires item.Var? ==> item.index < |t.tokens| && t.tokens[item.index] == s[..step]
    requires item.Lit? ==> step == 1 && item.c == s[0]
    ensures RenderItem(item, t, 0) + s[step..] == s
  {
    assert RenderItem(item, t, 0) == s[..step];
    assert s == s[..step] + s[step..];
  }

  lemma {:induction false} RenderAtZeroIsTemplate(s: string, t: Table)
    requires t.Valid()
    ensures Render(Read(s, t.tokens), t, 0) == s
    decreases |s|
  {
    if s != "" {
      var item, step := ReadStep(s, t);
      RenderAtZeroIsTemplate(s[step..], t);
      RenderFront(item, Read(s[step..], t.tokens), t, 0);
      ItemAtZero(s, t, item, step);
    }
  }

  lemma {:induction false} RenderAtEndIsExpansion(s: string, t: Table)
    requires t.Valid()
    ensures Render(Read(s, t.tokens), t, |t.tokens|) == Expand(s, t)
    decreases |s|
  {
    if s != "" {
      var item, step := ReadStep(s, t);
      RenderAtEndIsExpansion(s[step..], t);
      RenderFront(item, Read(s[step..], t.tokens), t, |t.tokens|);
    }
  }

  lemma {:induction false} RenderAppend(a: seq<Item>, b: seq<Item>, t: Table, k: nat)
    requires Over(a, t) && Over(b, t)
    ensures Render(a + b, t, k) == Render(a, t, k) + Render(b, t, k)
  {
    if a == [] {
      assert a + b == b;
    } else {
      assert (a + b)[1..] == a[1..] + b;
      RenderAppend(a[1..], b, t, k);
    }
  }

  // ---------------------------------------------------------------------
  // One pass, when nothing is forged
  // ---------------------------------------------------------------------

  /** Text without a dollar sign is skipped by every pass. */
  lemma {:induction false} ReplaceSkips(a: string, x: string, key: string, v: string)
    requires '$' !in a && key != "" && key[0] == '$'
    ensures ReplaceAll(a + x, key, v) == a + ReplaceAll(x, key, v)
  {
    if a == "" {
      assert a + x == x;
    } else {
      var s := a + x;
      assert s[0] == a[0] && s[1..] == a[1..] + x;
      ReplaceSkips(a[1..], x, key, v);
    }
  }

  /** No token is a prefix of text that starts with another one. */
  lemma TokensArePrefixFree(a: string, b: string, x: string)
    requires IsToken(a) && IsToken(b) && a <= b + x
    ensures a == b
  {
    var s := b + x;
    assert s == a + s[|a|..];
    var a', b' := a[..|a| - 1], b[..|b| - 1];
    assert s == a' + ['}'] + s[|a|..] && s == b' + ['}'] + x;
    FirstSeparator(a', s[|a|..], b', x, '}');
    assert a == a' + ['}'] && b == b' + ['}'];
  }

  /** A pass leaves a token of another variable alone. */
  lemma ReplaceSkipsToken(other: string, x: string, key: string, v: string)
    requires IsToken(key) && IsToken(other) && key != other
    ensures ReplaceAll(other + x, key, v) == other + ReplaceAll(x, key, v)
  {
    var s := other + x;
    if key <= s { TokensArePrefixFree(key, other, x); }
    assert s[1..] == other[1..] + x && other == [s[0]] + other[1..];
    ReplaceSkips(other[1..], x, key, v);
  }

  /** If the rest of a token begins the rendered text, then it is spelt by
      whole items, none of which is a pending variable. */
  lemma {:induction false} TokenEndsWithItem(rest: string, items: seq<Item>, t: Table, k: nat) returns (q: nat)
    requires Over(items, t) && k <= |t.tokens|
    requires rest != "" && '$' !in rest && rest[|rest| - 1] == '}' && rest <= Render(items, t, k)
    ensures q <= |items|
    ensures forall i | 0 <= i < q :: items[i].Var? ==> items[i].index < k
    ensures Render(items[..q], t, k) == rest
  {
    assert items != [];
    var head, tail := RenderItem(items[0], t, k), Render(items[1..], t, k);
    assert rest <= head + tail;
    assert head != "" ==> rest[0] == head[0];
    assert rest[|rest| - 1] == (head + tail)[|rest| - 1];
    assert items[..1][1..] == [];
    if rest == head {
      q := 1;
      assert Render(items[..1], t, k) == head;
    } else {
      assert head <= rest && rest[|head|..] <= tail;
      q := TokenEndsWithItem(rest[|head|..], items[1..], t, k);
      assert items[..q + 1][1..] == items[1..][..q];
      q := q + 1;
    }
  }

  /** The token at a dollar sign of the template is a forgery. */
  lemma TokenAtDollarIsForged(items: seq<Item>, t: Table, k: nat) returns (q: nat)
    requires Over(items, t) && k < |t.tokens|
    requires items != [] && items[0] == Lit('$') && t.tokens[k] <= Render(items, t, k)
    ensures Forges(items, t, k, 0, q)
  {
    var token := t.tokens[k];
    assert token == ['$'] + token[1..];
    assert token[1..] <= Render(items[1..], t, k);
    q := TokenEndsWithItem(token[1..], items[1..], t, k);
    assert items[0..q + 1] == [items[0]] + items[1..][..q];
    assert items[0..q + 1][1..] == items[1..][..q];
    q := q + 1;
  }

  lemma LiteralDollarIsSkipped(items: seq<Item>, t: Table, k: nat)
    requires Over(items, t) && k < |t.tokens|
    requires items != [] && items[0] == Lit('$')
    requires forall p: nat, q: nat :: !Forges(items, t, k, p, q)
    ensures !(t.tokens[k] <= Render(items, t, k))
  {
    if t.tokens[k] <= Render(items, t, k) {
      var q := TokenAtDollarIsForged(items, t, k);
    }
  }

  lemma SliceOfTail<T>(s: seq<T>, p: nat, q: nat)
    requires p <= q < |s|
    ensures s[p + 1..q + 1] == s[1..][p..q]
  {
    var tail := s[1..];
    assert forall i | p <= i < q :: tail[i] == s[i + 1];
    forall i | 0 <= i < q - p ensures s[p + 1..q + 1][i] == tail[p..q][i] { assert tail[p + i] == s[p + i + 1]; }
  }

  lemma ForgeryFromTail(items: seq<Item>, t: Table, k: nat, p: nat, q: nat)
    requires Over(items, t) && k < |t.tokens| && items != [] && Forges(items[1..], t, k, p, q)
    ensures Forges(items, t, k, p + 1, q + 1)
  {
    SliceOfTail(items, p, q);
    assert forall i | p + 1 <= i < q + 1 :: items[i] == items[1..][i - 1];
  }

  lemma ForgesInTail(items: seq<Item>, t: Table, k: nat)
    requires Over(items, t) && k < |t.tokens| && items != []
    requires forall p: nat, q: nat :: !Forges(items, t, k, p, q)
    ensures forall p: nat, q: nat :: !Forges(items[1..], t, k, p, q)
  {
    forall p: nat, q: nat ensures !Forges(items[1..], t, k, p, q) {
      if Forges(items[1..], t, k, p, q) { ForgeryFromTail(items, t, k, p, q); }
    }
  }

  /** A pass over one item and the rest. */
  lemma PassOverItem(item: Item, tail: string, t: Table, k: nat)
    requires t.Valid() && k < |t.tokens| && (item.Var? ==> item.index < |t.tokens|)
    requires item == Lit('$') ==> !(t.tokens[k] <= ['$'] + tail)
    ensures ReplaceAll(RenderItem(item, t, k) + tail, t.tokens[k], t.values[k])
         == RenderItem(item, t, k + 1) + ReplaceAll(tail, t.tokens[k], t.values[k])
  {
    var token, v, head := t.tokens[k], t.values[k], RenderItem(item, t, k);
    match item
    case Lit(c) =>
      if c == '$' {
        assert (head + tail)[1..] == tail;
      } else {
        ReplaceSkips(head, tail, token, v);
      }
    case Var(j) =>
      if j < k {
        ReplaceSkips(head, tail, token, v);
      } else if j == k {
        assert (token + tail)[|token|..] == tail;
      } else {
        ReplaceSkipsToken(head, tail, token, v);
      }
  }

  /** A pass substitutes its variable, and nothing else, if nothing is forged. */
  lemma {:induction false} CleanPass(items: seq<Item>, t: Table, k: nat)
    requires Over(items, t) && k < |t.tokens|
    requires forall p: nat, q: nat :: !Forges(items, t, k, p, q)
    ensures ReplaceAll(Render(items, t, k), t.tokens[k], t.values[k]) == Render(items, t, k + 1)
  {
    if items != [] {
      ForgesInTail(items, t, k);
      CleanPass(items[1..], t, k);
      if items[0] == Lit('$') { LiteralDollarIsSkipped(items, t, k); }
      PassOverItem(items[0], Render(items[1..], t, k), t, k);
    }
  }

  // ---------------------------------------------------------------------
  // Dollar signs that begin no pending variable
  // ---------------------------------------------------------------------

  ghost predicate PendingAt(s: string, t: Table, k: nat) {
    exists j | k <= j < |t.tokens| :: t.tokens[j] <= s
  }

  /** The dollar signs of s that begin none of the variables k, k+1, ... */
  ghost function Loose(s: string, t: Table, k: nat): nat
    decreases |s|
  {
    if s == "" then 0
    else (if s[0] == '$' && !PendingAt(s, t, k) then 1 else 0) + Loose(s[1..], t, k)
  }

  lemma {:induction false} LooseSkips(a: string, x: string, t: Table, k: nat)
    requires '$' !in a
    ensures Loose(a + x, t, k) == Loose(x, t, k)
  {
    if a == "" {
      assert a + x == x;
    } else {
      assert (a + x)[1..] == a[1..] + x;
      LooseSkips(a[1..], x, t, k);
    }
  }

  lemma LooseAfterToken(s: string, t: Table, k: nat, j: nat)
    requires t.Valid() && k <= j < |t.tokens| && t.tokens[j] <= s
    ensures Loose(s, t, k) == Loose(s[|t.tokens[j]|..], t, k)
  {
    var token := t.tokens[j];
    assert s[1..] == token[1..] + s[|token|..];
    LooseSkips(token[1..], s[|token|..], t, k);
  }

  /** A pass never turns a dollar sign that begins a later variable into one
      that does not. */
  lemma PendingSurvives(s: string, t: Table, k: nat)
    requires t.Valid() && k < |t.tokens| && s != "" && s[0] == '$'
    requires PendingAt(s, t, k) && !(t.tokens[k] <= s)
    ensures PendingAt([s[0]] + ReplaceAll(s[1..], t.tokens[k], t.values[k]), t, k + 1)
  {
    var j :| k <= j < |t.tokens| && t.tokens[j] <= s;
    var other := t.tokens[j];
    var after := s[|other|..];
    assert s[1..] == other[1..] + after;
    ReplaceSkips(other[1..], after, t.tokens[k], t.values[k]);
    assert other <= [s[0]] + ReplaceAll(s[1..], t.tokens[k], t.values[k]) by {
      assert other == [s[0]] + other[1..];
    }
  }

  /** So the number of loose dollar signs never grows from pass to pass. */
  lemma {:induction false} LooseShrinks(s: string, t: Table, k: nat)
    requires t.Valid() && k < |t.tokens|
    ensures Loose(ReplaceAll(s, t.tokens[k], t.values[k]), t, k + 1) <= Loose(s, t, k)
    decreases |s|
  {
    var token, v := t.tokens[k], t.values[k];
    if s == "" {
    } else if token <= s {
      var rest := s[|token|..];
      LooseShrinks(rest, t, k);
      LooseAfterToken(s, t, k, k);
      LooseSkips(v, ReplaceAll(rest, token, v), t, k + 1);
    } else {
      LooseShrinks(s[1..], t, k);
      var out := [s[0]] + ReplaceAll(s[1..], token, v);
      assert out[1..] == ReplaceAll(s[1..], token, v);
      if s[0] == '$' && PendingAt(s, t, k) {
        PendingSurvives(s, t, k);
      }
    }
  }

  function Dollars(items: seq<Item>): nat {
    if items == [] then 0 else (if items[0] == Lit('$') then 1 else 0) + Dollars(items[1..])
  }

  /** One item adds at most its own literal dollar sign, and exactly that once
      nothing is pending. */
  lemma LooseOfItem(item: Item, tail: string, t: Table, k: nat)
    requires t.Valid() && k <= |t.tokens| && (item.Var? ==> item.index < |t.tokens|)
    ensures var own := if item == Lit('$') then 1 else 0;
            && Loose(RenderItem(item, t, k) + tail, t, k) <= own + Loose(tail, t, k)
            && (k == |t.tokens| ==> Loose(RenderItem(item, t, k) + tail, t, k) == own + Loose(tail, t, k))
  {
    var head := RenderItem(item, t, k);
    match item
    case Lit(c) => assert (head + tail)[1..] == tail;
    case Var(j) =>
      if j < k {
        LooseSkips(head, tail, t, k);
      } else {
        assert (head + tail)[|head|..] == tail;
        LooseAfterToken(head + tail, t, k, j);
      }
  }

  lemma {:induction false} LooseInRender(items: seq<Item>, t: Table, k: nat)
    requires Over(items, t) && k <= |t.tokens|
    ensures Loose(Render(items, t, k), t, k) <= Dollars(items)
    ensures k == |t.tokens| ==> Loose(Render(items, t, k), t, k) == Dollars(items)
  {
    if items != [] {
      LooseInRender(items[1..], t, k);
      LooseInFront(items, t, k);
    }
  }

  lemma LooseInFront(items: seq<Item>, t: Table, k: nat)
    requires Over(items, t) && k <= |t.tokens| && items != []
    ensures var own := if items[0] == Lit('$') then 1 else 0;
            && Loose(Render(items, t, k), t, k) <= own + Loose(Render(items[1..], t, k), t, k)
            && (k == |t.tokens| ==> Loose(Render(items, t, k), t, k) == own + Loose(Render(items[1..], t, k), t, k))
  {
    LooseOfItem(items[0], Render(items[1..], t, k), t, k);
  }

  lemma ForgeryAtFront(items: seq<Item>, t: Table, k: nat, q: nat)
    requires Over(items, t) && k < |t.tokens| && Forges(items, t, k, 0, q)
    ensures t.tokens[k] <= Render(items, t, k)
  {
    assert items == items[0..q] + items[q..];
    RenderAppend(items[0..q], items[q..], t, k);
  }

  lemma ForgeryInTail(items: seq<Item>, t: Table, k: nat, p: nat, q: nat)
    requires Over(items, t) && k < |t.tokens| && Forges(items, t, k, p, q) && p > 0
    ensures Forges(items[1..], t, k, p - 1, q - 1)
  {
    SliceOfTail(items, p - 1, q - 1);
    assert forall i | p - 1 <= i < q - 1 :: items[1..][i] == items[i + 1];
  }

  /** A forged variable uses up a dollar sign of the template. */
  lemma {:induction false} ForgeryIsFelt(items: seq<Item>, t: Table, k: nat, p: nat, q: nat)
    requires Over(items, t) && k < |t.tokens| && Forges(items, t, k, p, q)
    ensures Loose(Render(items, t, k), t, k) < Dollars(items)
  {
    if p == 0 {
      LooseInRender(items[1..], t, k);
      ForgeryAtFront(items, t, k, q);
      PendingIsNotLoose(items, t, k);
    } else {
      ForgeryInTail(items, t, k, p, q);
      ForgeryIsFelt(items[1..], t, k, p - 1, q - 1);
      LooseInFront(items, t, k);
    }
  }

  lemma PendingIsNotLoose(items: seq<Item>, t: Table, k: nat)
    requires Over(items, t) && k < |t.tokens| && items != [] && items[0] == Lit('$')
    requires t.tokens[k] <= Render(items, t, k)
    ensures Loose(Render(items, t, k), t, k) == Loose(Render(items[1..], t, k), t, k)
  {
    assert Render(items, t, k)[1..] == Render(items[1..], t, k);
  }

  // ---------------------------------------------------------------------
  // The passes together
  // ---------------------------------------------------------------------

  lemma {:induction false} PassesKeepLoose(s: string, t: Table, k: nat)
    requires t.Valid() && k <= |t.tokens|
    ensures Loose(Passes(s, t, k), t, |t.tokens|) <= Loose(s, t, k)
    decreases |t.tokens| - k
  {
    if k < |t.tokens| {
      LooseShrinks(s, t, k);
      PassesKeepLoose(ReplaceAll(s, t.tokens[k], t.values[k]), t, k + 1);
    }
  }

  /** No stretch forges variable k. */
  ghost predicate Unforged(items: seq<Item>, t: Table, k: nat)
    requires Over(items, t) && k < |t.tokens|
  {
    forall p: nat, q: nat :: !Forges(items, t, k, p, q)
  }

  /** No stretch forges a variable from k on. */
  ghost predicate NoForgeryFrom(items: seq<Item>, t: Table, k: nat)
    requires Over(items, t)
  {
    forall j: nat | k <= j < |t.tokens| :: Unforged(items, t, j)
  }

  lemma CleanPassGoesOn(items: seq<Item>, t: Table, k: nat)
    requires Over(items, t) && k < |t.tokens| && Unforged(items, t, k)
    ensures Passes(Render(items, t, k), t, k) == Passes(Render(items, t, k + 1), t, k + 1)
  {
    CleanPass(items, t, k);
  }

  lemma ForgeryShows(items: seq<Item>, t: Table, k: nat)
    requires Over(items, t) && k < |t.tokens| && !Unforged(items, t, k)
    ensures Passes(Render(items, t, k), t, k) != Render(items, t, |t.tokens|)
  {
    var p: nat, q: nat :| Forges(items, t, k, p, q);
    ForgeryIsFelt(items, t, k, p, q);
    PassesKeepLoose(Render(items, t, k), t, k);
    LooseInRender(items, t, |t.tokens|);
  }

  lemma {:induction false} UnforgedEndsAsRead(items: seq<Item>, t: Table, k: nat)
    requires Over(items, t) && k <= |t.tokens| && NoForgeryFrom(items, t, k)
    ensures Passes(Render(items, t, k), t, k) == Render(items, t, |t.tokens|)
    decreases |t.tokens| - k
  {
    if k == |t.tokens| {
      assert Passes(Render(items, t, k), t, k) == Render(items, t, k);
    } else {
      calc {
        Passes(Render(items, t, k), t, k);
      ==  { CleanPassGoesOn(items, t, k); }
        Passes(Render(items, t, k + 1), t, k + 1);
      ==  { UnforgedEndsAsRead(items, t, k + 1); }
        Render(items, t, |t.tokens|);
      }
    }
  }

  lemma {:induction false} ForgedEndsOtherwise(items: seq<Item>, t: Table, k: nat, j: nat)
    requires Over(items, t) && k <= j < |t.tokens| && !Unforged(items, t, j)
    ensures Passes(Render(items, t, k), t, k) != Render(items, t, |t.tokens|)
    decreases |t.tokens| - k
  {
    if Unforged(items, t, k) {
      CleanPassGoesOn(items, t, k);
      ForgedEndsOtherwise(items, t, k + 1, j);
    } else {
      ForgeryShows(items, t, k);
    }
  }

  /** The ten passes mean the same as one simultaneous substitution exactly
      when no stretch of the template forges a variable. */
  lemma PassesAreSimultaneousIff(s: string, t: Table)
    requires t.Valid()
    ensures Passes(s, t, 0) == Expand(s, t) <==> NoForgery(s, t)
  {
    var items := Read(s, t.tokens);
    RenderAtZeroIsTemplate(s, t);
    RenderAtEndIsExpansion(s, t);
    if NoForgeryFrom(items, t, 0) {
      UnforgedEndsAsRead(items, t, 0);
    } else {
      var j: nat :| j < |t.tokens| && !Unforged(items, t, j);
      ForgedEndsOtherwise(items, t, 0, j);
    }
  }

  /** In particular when every dollar sign of the template begins a variable,
      whatever the values are. */
  lemma NoLiteralDollarSuffices(s: string, t: Table)
    requires t.Valid() && NoLiteralDollar(s, t)
    ensures Passes(s, t, 0) == Expand(s, t)
  {
    PassesAreSimultaneousIff(s, t);
  }

  ghost predicate HasVariable(t: Table, token: string, value: string)
    requires |t.tokens| == |t.values|
  {
    exists i | 0 <= i < |t.tokens| :: t.tokens[i] == token && t.values[i] == value
  }

  /** The same variables in any order. */
  ghost predicate SameVariables(t: Table, u: Table)
    requires t.Valid() && u.Valid()
  {
    && (forall i | 0 <= i < |t.tokens| :: HasVariable(u, t.tokens[i], t.values[i]))
    && (forall j | 0 <= j < |u.tokens| :: HasVariable(t, u.tokens[j], u.values[j]))
  }

  lemma FoundInOther(s: string, t: Table, u: Table)
    requires u.Valid() && |t.tokens| == |t.values| && TokenAt(s, t.tokens) >= 0
    requires forall i | 0 <= i < |t.tokens| :: HasVariable(u, t.tokens[i], t.values[i])
    ensures var i, j := TokenAt(s, t.tokens), TokenAt(s, u.tokens);
            j >= 0 && t.tokens[i] == u.tokens[j] && t.values[i] == u.values[j]
  {
    var i, j := TokenAt(s, t.tokens), TokenAt(s, u.tokens);
    var j' :| 0 <= j' < |u.tokens| && u.tokens[j'] == t.tokens[i] && u.values[j'] == t.values[i];
    assert u.tokens[j'] <= s;
    OnlyTokenAt(s, u, j, j');
  }

  lemma SameTokenAt(s: string, t: Table, u: Table)
    requires t.Valid() && u.Valid() && SameVariables(t, u)
    ensures var i, j := TokenAt(s, t.tokens), TokenAt(s, u.tokens);
            (i < 0 && j < 0)
            || (i >= 0 && j >= 0 && t.tokens[i] == u.tokens[j] && t.values[i] == u.values[j])
  {
    if TokenAt(s, t.tokens) >= 0 {
      FoundInOther(s, t, u);
    } else if TokenAt(s, u.tokens) >= 0 {
      FoundInOther(s, u, t);
    }
  }

  lemma OnlyTokenAt(s: string, t: Table, i: nat, j: nat)
    requires t.Valid() && i < |t.tokens| && j < |t.tokens| && t.tokens[i] <= s && t.tokens[j] <= s
    ensures i == j
  {
    assert s == t.tokens[j] + s[|t.tokens[j]|..];
    TokensArePrefixFree(t.tokens[i], t.tokens[j], s[|t.tokens[j]|..]);
  }

  lemma {:induction false} ExpansionIgnoresOrder(s: string, t: Table, u: Table)
    requires t.Valid() && u.Valid() && SameVariables(t, u)
    ensures Expand(s, t) == Expand(s, u)
    ensures NoLiteralDollar(s, t) <==> NoLiteralDollar(s, u)
    decreases |s|
  {
    if s != "" {
      SameTokenAt(s, t, u);
      var i := TokenAt(s, t.tokens);
      var step := if i >= 0 then |t.tokens[i]| else 1;
      ExpansionIgnoresOrder(s[step..], t, u);
      ExpandFront(s, t);
      ExpandFront(s, u);
      DollarInRead(s, t);
      DollarInRead(s, u);
    }
  }

  lemma ExpandFront(s: string, t: Table)
    requires t.Valid() && s != ""
    ensures var i := TokenAt(s, t.tokens);
            Expand(s, t) == if i >= 0 then t.values[i] + Expand(s[|t.tokens[i]|..], t) else [s[0]] + Expand(s[1..], t)
  {}

  lemma DollarInRead(s: string, t: Table)
    requires t.Valid() && s != ""
    ensures var i := TokenAt(s, t.tokens);
            Lit('$') in Read(s, t.tokens) <==>
            (i < 0 && s[0] == '$') || Lit('$') in Read(s[if i >= 0 then |t.tokens[i]| else 1..], t.tokens)
  {}

  /** For such templates the order in which the variables are replaced does
      not matter. */
  lemma OrderDoesNotMatter(s: string, t: Table, u: Table)
    requires t.Valid() && u.Valid() && SameVariables(t, u) && NoLiteralDollar(s, t)
    ensures Passes(s, t, 0) == Passes(s, u, 0)
  {
    ExpansionIgnoresOrder(s, t, u);
    NoLiteralDollarSuffices(s, t);
    NoLiteralDollarSuffices(s, u);
  }

  // ---------------------------------------------------------------------
  // Events and the table built from one
  // ---------------------------------------------------------------------

  datatype EventType =
    | ManagerStarting | ManagerStopped | ForwardConnected | ForwardDisconnected | ForwardFailed
    | ForwardStopped | HealthCheckFailed | ServiceAdded | ServiceRemoved | PodTerminating
  {
    function Name(): string {
      match this
      case ManagerStarting => "manager:starting"
      case ManagerStopped => "manager:stopped"
      case ForwardConnected => "forward:connected"
      case ForwardDisconnected => "forward:disconnected"
      case ForwardFailed => "forward:failed"
      case ForwardStopped => "forward:stopped"
      case HealthCheckFailed => "health:check_failed"
      case ServiceAdded => "service:added"
      case ServiceRemoved => "service:removed"
      case PodTerminating => "pod:terminating"
    }
  }

  /** A timestamp in RFC 3339 form: digits and the separators - : . + T Z. */
  type Timestamp = s: string | forall c | c in s :: c in "0123456789-:.+TZ" witness ""

  /** error is the message of the event's error, or "" when there is none. */
  datatype Event = Event(
    kind: EventType, time: Timestamp, service: string, parentName: string, portName: string,
    localPort: int, remotePort: int, podName: string, restarts: int, error: string)

  const STRIPPED: set<char> :=
    {'`', '$', '(', ')', '{', '}', '[', ']', '|', '&', ';', '<', '>', '\n', '\r', '\0'}

  /** The characters of s that are not shell metacharacters, in order. */
  function Sanitized(s: string): string {
    if s == "" then ""
    else Sanitized(s[..|s| - 1]) + (if s[|s| - 1] in STRIPPED then "" else [s[|s| - 1]])
  }

  lemma {:induction false} SanitizedIsClean(s: string)
    ensures forall c | c in Sanitized(s) :: c !in STRIPPED && c in s
  {
    if s != "" {
      var init, last := s[..|s| - 1], s[|s| - 1];
      SanitizedIsClean(init);
      assert s == init + [last];
      assert forall c | c in init :: c in s;
    }
  }

  lemma {:induction false} CleanStays(s: string)
    requires forall c | c in s :: c !in STRIPPED
    ensures Sanitized(s) == s
  {
    if s != "" {
      var init, last := s[..|s| - 1], s[|s| - 1];
      assert last in s && forall c | c in init :: c in s;
      CleanStays(init);
      assert s == init + [last];
    }
  }

  method SanitizeShellValue(s: string) returns (b: string)
    ensures b == Sanitized(s)
  {
    b := "";
    for i := 0 to |s|
      invariant b == Sanitized(s[..i])
    {
      assert s[..i + 1][..i] == s[..i];
      if s[i] !in STRIPPED {
        b := b + [s[i]];
      }
    }
    assert s[..|s|] == s;
  }

  function Token(name: string): string { "${" + name + "}" }

  const TOKENS: seq<string> :=
    [Token("EVENT"), Token("SERVICE"), Token("PARENT_NAME"), Token("PORT_NAME"), Token("PORT"),
     Token("REMOTE_PORT"), Token("POD"), Token("RESTARTS"), Token("ERROR"), Token("TIME")]

  function EventTable(e: Event): Table {
    Table(TOKENS,
          [e.kind.Name(), Sanitized(e.service), Sanitized(e.parentName), Sanitized(e.portName), Itoa(e.localPort),
           Itoa(e.remotePort), Sanitized(e.podName), Itoa(e.restarts), Sanitized(e.error), e.time])
  }

  lemma NamesMakeTokens(name: string)
    requires '$' !in name && '}' !in name
    ensures IsToken(Token(name))
  {
    assert Token(name)[1..] == "{" + name + "}";
    assert Token(name)[..|name| + 2] == "${" + name;
  }

  lemma TokensAreTokens()
    ensures forall j | 0 <= j < |TOKENS| :: IsToken(TOKENS[j])
  {
    NamesMakeTokens("EVENT");
    NamesMakeTokens("SERVICE");
    NamesMakeTokens("PARENT_NAME");
    NamesMakeTokens("PORT_NAME");
    NamesMakeTokens("PORT");
    NamesMakeTokens("REMOTE_PORT");
    NamesMakeTokens("POD");
    NamesMakeTokens("RESTARTS");
    NamesMakeTokens("ERROR");
    NamesMakeTokens("TIME");
  }

  lemma TokensAreDistinct(i: nat, j: nat)
    requires i < j < |TOKENS|
    ensures TOKENS[i] != TOKENS[j]
  {
    // Length and the first two letters tell the names apart.
    var a, b := TOKENS[i], TOKENS[j];
    assert |a| != |b| || a[2] != b[2] || a[3] != b[3];
  }

  /** Sanitising is what makes the theory above apply to every event. */
  lemma EventTableIsValid(e: Event)
    ensures EventTable(e).Valid()
  {
    var t := EventTable(e);
    TokensAreTokens();
    forall i, j | 0 <= i < j < 10 ensures t.tokens[i] != t.tokens[j] {
      TokensAreDistinct(i, j);
    }
    ValuesAreInert(e);
  }

  lemma EventNamesAreInert(k: EventType)
    ensures Inert(k.Name())
  {
    match k
    case ManagerStarting => assert Inert("manager:starting");
    case ManagerStopped => assert Inert("manager:stopped");
    case ForwardConnected => assert Inert("forward:connected");
    case ForwardDisconnected => assert Inert("forward:disconnected");
    case ForwardFailed => assert Inert("forward:failed");
    case ForwardStopped => assert Inert("forward:stopped");
    case HealthCheckFailed => assert Inert("health:check_failed");
    case ServiceAdded => assert Inert("service:added");
    case ServiceRemoved => assert Inert("service:removed");
    case PodTerminating => assert Inert("pod:terminating");
  }

  lemma SanitizedIsInert(s: string)
    ensures Inert(Sanitized(s))
  {
    SanitizedIsClean(s);
  }

  lemma ItoaIsInert(n: int)
    ensures Inert(Itoa(n))
  {
    var s := Itoa(n);
    forall i | 0 <= i < |s| ensures s[i] != '$' && s[i] != '{' && s[i] != '}' {
      assert s[i] in s;
    }
  }

  lemma TimestampsAreInert(s: Timestamp)
    ensures Inert(s)
  {
    forall i | 0 <= i < |s| ensures s[i] != '$' && s[i] != '{' && s[i] != '}' {
      assert s[i] in s;
    }
  }

  lemma ValuesAreInert(e: Event)
    ensures |EventTable(e).values| == |TOKENS|
    ensures forall j | 0 <= j < |TOKENS| :: Inert(EventTable(e).values[j])
  {
    EventNamesAreInert(e.kind);
    SanitizedIsInert(e.service);
    SanitizedIsInert(e.parentName);
    SanitizedIsInert(e.portName);
    SanitizedIsInert(e.podName);
    SanitizedIsInert(e.error);
    ItoaIsInert(e.localPort);
    ItoaIsInert(e.remotePort);
    ItoaIsInert(e.restarts);
    TimestampsAreInert(e.time);
    AllInert(e.kind.Name(), Sanitized(e.service), Sanitized(e.parentName), Sanitized(e.portName), Itoa(e.localPort),
             Itoa(e.remotePort), Sanitized(e.podName), Itoa(e.restarts), Sanitized(e.error), e.time);
  }

  lemma AllInert(a: string, b: string, c: string, d: string, e: string,
                 f: string, g: string, h: string, i: string, j: string)
    requires Inert(a) && Inert(b) && Inert(c) && Inert(d) && Inert(e)
    requires Inert(f) && Inert(g) && Inert(h) && Inert(i) && Inert(j)
    ensures forall k | 0 <= k < 10 :: Inert([a, b, c, d, e, f, g, h, i, j][k])
  {}

  // ---------------------------------------------------------------------
  // What each variable stands for
  // ---------------------------------------------------------------------

  /** Text without a dollar sign stays as it is, up to the first variable. */
  lemma {:induction false} ExpandAfterText(before: string, s: string, t: Table)
    requires t.Valid() && '$' !in before
    ensures Expand(before + s, t) == before + Expand(s, t)
  {
    if before == "" {
      assert before + s == s;
    } else {
      var whole := before + s;
      assert whole[0] == before[0] && whole[1..] == before[1..] + s;
      ExpandAfterText(before[1..], s, t);
      assert forall j | 0 <= j < |t.tokens| :: t.tokens[j][0] == '$';
      assert TokenAt(whole, t.tokens) < 0;
    }
  }

  /** A variable becomes its value, wherever it stands. */
  lemma ExpandVariable(before: string, i: nat, after: string, t: Table)
    requires t.Valid() && '$' !in before && i < |t.tokens|
    ensures Expand(before + (t.tokens[i] + after), t) == before + (t.values[i] + Expand(after, t))
  {
    var s := t.tokens[i] + after;
    ExpandAfterText(before, s, t);
    assert t.tokens[i] <= s;
    OnlyTokenAt(s, t, TokenAt(s, t.tokens), i);
    assert s[|t.tokens[i]|..] == after;
  }

  /** Wherever the variable of this name stands, it becomes value. */
  ghost predicate StandsFor(t: Table, name: string, value: string)
    requires t.Valid()
  {
    forall before, after | '$' !in before ::
      Expand(before + ("${" + name + "}" + after), t) == before + (value + Expand(after, t))
  }

  lemma TenInOrder(a: string, b: string, c: string, d: string, e: string,
                   f: string, g: string, h: string, i: string, j: string)
    ensures var v := [a, b, c, d, e, f, g, h, i, j];
            && v[0] == a && v[1] == b && v[2] == c && v[3] == d && v[4] == e
            && v[5] == f && v[6] == g && v[7] == h && v[8] == i && v[9] == j
  {}

  lemma TokensInOrder()
    ensures |TOKENS| == 10
    ensures TOKENS[0] == Token("EVENT") && TOKENS[1] == Token("SERVICE") && TOKENS[2] == Token("PARENT_NAME")
    ensures TOKENS[3] == Token("PORT_NAME") && TOKENS[4] == Token("PORT") && TOKENS[5] == Token("REMOTE_PORT")
    ensures TOKENS[6] == Token("POD") && TOKENS[7] == Token("RESTARTS") && TOKENS[8] == Token("ERROR")
    ensures TOKENS[9] == Token("TIME")
  {}

  /** The table has a variable of this name, with this value. */
  ghost predicate HasRow(t: Table, name: string, value: string)
    requires t.Valid()
  {
    exists i :: 0 <= i < |t.tokens| && t.tokens[i] == "${" + name + "}" && t.values[i] == value
  }

  /** The ten variables of an event. */
  ghost predicate TenRows(t: Table, e: Event)
    requires t.Valid()
  {
    && HasRow(t, "EVENT", e.kind.Name())
    && HasRow(t, "SERVICE", Sanitized(e.service))
    && HasRow(t, "PARENT_NAME", Sanitized(e.parentName))
    && HasRow(t, "PORT_NAME", Sanitized(e.portName))
    && HasRow(t, "PORT", Itoa(e.localPort))
    && HasRow(t, "REMOTE_PORT", Itoa(e.remotePort))
    && HasRow(t, "POD", Sanitized(e.podName))
    && HasRow(t, "RESTARTS", Itoa(e.restarts))
    && HasRow(t, "ERROR", Sanitized(e.error))
    && HasRow(t, "TIME", e.time)
  }

  lemma RowAt(t: Table, i: nat, name: string, value: string)
    requires t.Valid() && i < |t.tokens| && t.tokens[i] == Token(name) && t.values[i] == value
    ensures HasRow(t, name, value)
  {}

  lemma EventHasTenRows(e: Event)
    ensures EventTable(e).Valid() && TenRows(EventTable(e), e)
  {
    var t := EventTable(e);
    EventTableIsValid(e);
    TokensInOrder();
    TenInOrder(e.kind.Name(), Sanitized(e.service), Sanitized(e.parentName), Sanitized(e.portName), Itoa(e.localPort),
               Itoa(e.remotePort), Sanitized(e.podName), Itoa(e.restarts), Sanitized(e.error), e.time);
    RowAt(t, 0, "EVENT", e.kind.Name());
    RowAt(t, 1, "SERVICE", Sanitized(e.service));
    RowAt(t, 2, "PARENT_NAME", Sanitized(e.parentName));
    RowAt(t, 3, "PORT_NAME", Sanitized(e.portName));
    RowAt(t, 4, "PORT", Itoa(e.localPort));
    RowAt(t, 5, "REMOTE_PORT", Itoa(e.remotePort));
    RowAt(t, 6, "POD", Sanitized(e.podName));
    RowAt(t, 7, "RESTARTS", Itoa(e.restarts));
    RowAt(t, 8, "ERROR", Sanitized(e.error));
    RowAt(t, 9, "TIME", e.time);
  }

  /** One reading puts the value in the place of the variable, wherever it is. */
  lemma RowStandsFor(t: Table, name: string, value: string)
    requires t.Valid() && HasRow(t, name, value)
    ensures StandsFor(t, name, value)
  {
    var i :| 0 <= i < |t.tokens| && t.tokens[i] == "${" + name + "}" && t.values[i] == value;
    forall before, after | '$' !in before
      ensures Expand(before + ("${" + name + "}" + after), t) == before + (value + Expand(after, t))
    {
      ExpandVariable(before, i, after, t);
    }
  }

  lemma {:induction false} NoDollarAdded(before: string, s: string, t: Table)
    requires t.Valid() && '$' !in before && NoLiteralDollar(s, t)
    ensures NoLiteralDollar(before + s, t)
  {
    if before == "" {
      assert before + s == s;
    } else {
      var whole := before + s;
      assert whole[0] == before[0] && whole[1..] == before[1..] + s;
      NoDollarAdded(before[1..], s, t);
      assert forall j | 0 <= j < |t.tokens| :: t.tokens[j][0] == '$';
      assert TokenAt(whole, t.tokens) < 0;
      DollarInRead(whole, t);
    }
  }

  lemma NoDollarInVariable(i: nat, after: string, t: Table)
    requires t.Valid() && i < |t.tokens| && NoLiteralDollar(after, t)
    ensures NoLiteralDollar(t.tokens[i] + after, t)
  {
    var s := t.tokens[i] + after;
    assert t.tokens[i] <= s;
    OnlyTokenAt(s, t, TokenAt(s, t.tokens), i);
    assert s[|t.tokens[i]|..] == after;
    DollarInRead(s, t);
  }

  /** So with ten replacements in a row, too, a variable between two pieces of
      text becomes its value, and the text stays. */
  lemma OneVariable(before: string, i: nat, after: string, t: Table)
    requires t.Valid() && '$' !in before && '$' !in after && i < |t.tokens|
    ensures Passes(before + (t.tokens[i] + after), t, 0) == before + (t.values[i] + after)
  {
    ExpandVariable(before, i, after, t);
    assert after + "" == after && Expand("", t) == "" && NoLiteralDollar("", t);
    ExpandAfterText(after, "", t);
    NoDollarAdded(after, "", t);
    NoDollarInVariable(i, after, t);
    NoDollarAdded(before, t.tokens[i] + after, t);
    NoLiteralDollarSuffices(before + (t.tokens[i] + after), t);
  }

  /** If s is the variable of this name between two pieces of text, r has value
      in its place. */
  ghost predicate Becomes(s: string, name: string, value: string, r: string) {
    forall before, after | '$' !in before && '$' !in after && s == before + ("${" + name + "}" + after) ::
      r == before + (value + after)
  }

  lemma RowBecomes(s: string, t: Table, name: string, value: string)
    requires t.Valid() && HasRow(t, name, value)
    ensures Becomes(s, name, value, Passes(s, t, 0))
  {
    var i :| 0 <= i < |t.tokens| && t.tokens[i] == "${" + name + "}" && t.values[i] == value;
    forall before, after | '$' !in before && '$' !in after && s == before + ("${" + name + "}" + after)
      ensures Passes(s, t, 0) == before + (value + after)
    {
      OneVariable(before, i, after, t);
    }
  }

  /** What expanding puts in the place of each variable of the event. */
  ghost predicate EachBecomes(s: string, e: Event, r: string) {
    && Becomes(s, "EVENT", e.kind.Name(), r)
    && Becomes(s, "SERVICE", Sanitized(e.service), r)
    && Becomes(s, "PARENT_NAME", Sanitized(e.parentName), r)
    && Becomes(s, "PORT_NAME", Sanitized(e.portName), r)
    && Becomes(s, "PORT", Itoa(e.localPort), r)
    && Becomes(s, "REMOTE_PORT", Itoa(e.remotePort), r)
    && Becomes(s, "POD", Sanitized(e.podName), r)
    && Becomes(s, "RESTARTS", Itoa(e.restarts), r)
    && Becomes(s, "ERROR", Sanitized(e.error), r)
    && Becomes(s, "TIME", e.time, r)
  }

  lemma VariablesBecome(s: string, e: Event)
    ensures EventTable(e).Valid() && EachBecomes(s, e, Passes(s, EventTable(e), 0))
  {
    var t := EventTable(e);
    EventHasTenRows(e);
    RowBecomes(s, t, "EVENT", e.kind.Name());
    RowBecomes(s, t, "SERVICE", Sanitized(e.service));
    RowBecomes(s, t, "PARENT_NAME", Sanitized(e.parentName));
    RowBecomes(s, t, "PORT_NAME", Sanitized(e.portName));
    RowBecomes(s, t, "PORT", Itoa(e.localPort));
    RowBecomes(s, t, "REMOTE_PORT", Itoa(e.remotePort));
    RowBecomes(s, t, "POD", Sanitized(e.podName));
    RowBecomes(s, t, "RESTARTS", Itoa(e.restarts));
    RowBecomes(s, t, "ERROR", Sanitized(e.error));
    RowBecomes(s, t, "TIME", e.time);
  }

  /** What sanitising drops and keeps, character by character: it goes through a
      text piece by piece, drops these sixteen characters and keeps every other. */
  lemma {:induction false} SanitizedInPieces(a: string, b: string)
    ensures Sanitized(a + b) == Sanitized(a) + Sanitized(b)
  {
    if b == "" {
      assert a + b == a;
    } else {
      assert (a + b)[..|a + b| - 1] == a + b[..|b| - 1];
      SanitizedInPieces(a, b[..|b| - 1]);
    }
  }

  lemma SanitizedCharacter(c: char)
    ensures Sanitized([c]) ==
            if c == '`' || c == '$' || c == '(' || c == ')' || c == '{' || c == '}' || c == '[' || c == ']'
               || c == '|' || c == '&' || c == ';' || c == '<' || c == '>' || c == '\n' || c == '\r' || c == '\0'
            then "" else [c]
  {
    assert [c][..0] == "";
  }

  /** The ten names of events, each of one kind. */
  lemma EventNames(k: EventType, name: string)
    ensures k.Name() == name <==>
            || (k == ManagerStarting && name == "manager:starting")
            || (k == ManagerStopped && name == "manager:stopped")
            || (k == ForwardConnected && name == "forward:connected")
            || (k == ForwardDisconnected && name == "forward:disconnected")
            || (k == ForwardFailed && name == "forward:failed")
            || (k == ForwardStopped && name == "forward:stopped")
            || (k == HealthCheckFailed && name == "health:check_failed")
            || (k == ServiceAdded && name == "service:added")
            || (k == ServiceRemoved && name == "service:removed")
            || (k == PodTerminating && name == "pod:terminating")
  {}

  /** What the loop over the table returns. */
  ghost predicate Expands(s: string, t: Table, r: string) {
    && t.Valid()
    && r == Passes(s, t, 0)
    && (r == Expand(s, t) <==> NoForgery(s, t))
  }

  /** The loop over the table. */
  method ReplaceEach(s: string, replacements: Table) returns (r: string)
    requires replacements.Valid()
    ensures Expands(s, replacements, r)
  {
    r := s;
    for k := 0 to |replacements.tokens|
      invariant Passes(r, replacements, k) == Passes(s, replacements, 0)
    {
      r := ReplaceAll(r, replacements.tokens[k], replacements.values[k]);
    }
    PassesAreSimultaneousIff(s, replacements);
  }

  method ExpandVars(s: string, e: Event) returns (r: string)
    ensures Expands(s, EventTable(e), r) && EachBecomes(s, e, r)
  {
    EventTableIsValid(e);
    VariablesBecome(s, e);
    var service := SanitizeShellValue(e.service);
    var parentName := SanitizeShellValue(e.parentName);
    var portName := SanitizeShellValue(e.portName);
    var podName := SanitizeShellValue(e.podName);
    var error := SanitizeShellValue(e.error);
    r := ReplaceEach(s, Table(TOKENS, [e.kind.Name(), service, parentName, portName, Itoa(e.localPort),
                                       Itoa(e.remotePort), podName, Itoa(e.restarts), error, e.time]));
  }

  lemma {:induction false} ReadWithoutDollar(s: string, t: Table)
    requires t.Valid() && '$' !in s
    ensures Read(s, t.tokens) == Letters(s)
    decreases |s|
  {
    if s != "" {
      var item, step := ReadStep(s, t);
      ReadWithoutDollar(s[1..], t);
    }
  }

  function Letters(s: string): seq<Item> {
    seq(|s|, n requires 0 <= n < |s| => Lit(s[n]))
  }

  lemma ReadDollarThenToken(t: Table, i: nat, name: string)
    requires t.Valid() && i < |t.tokens| && '$' !in name
    ensures Read("$" + t.tokens[i] + name, t.tokens) == [Lit('$')] + ([Var(i)] + Letters(name))
  {
    var rest := t.tokens[i] + name;
    var s := "$" + t.tokens[i] + name;
    assert s[0] == '$' && s[1] == '$' && s[1..] == rest;
    NoTokenAtTwoDollars(s, t);
    ReadTokenThenText(t, i, name);
  }

  lemma NoTokenAtTwoDollars(s: string, t: Table)
    requires t.Valid() && |s| > 1 && s[0] == '$' && s[1] == '$'
    ensures Read(s, t.tokens) == [Lit('$')] + Read(s[1..], t.tokens)
  {
    assert forall j | 0 <= j < |t.tokens| :: t.tokens[j][1] == '{';
    assert TokenAt(s, t.tokens) < 0;
  }

  lemma ReadTokenThenText(t: Table, i: nat, name: string)
    requires t.Valid() && i < |t.tokens| && '$' !in name
    ensures Read(t.tokens[i] + name, t.tokens) == [Var(i)] + Letters(name)
  {
    var s := t.tokens[i] + name;
    var item, step := ReadStep(s, t);
    var j := TokenAt(s, t.tokens);
    assert t.tokens[i] <= s;
    OnlyTokenAt(s, t, i, j);
    assert s[|t.tokens[i]|..] == name;
    ReadWithoutDollar(name, t);
  }

  /** A template with a dollar sign of its own can go wrong: a variable whose
      value is empty brings that dollar sign next to text that spells a later
      variable, as in "$${SERVICE}{POD}" for an event that names no service.
      One reading leaves "${POD}" there; the passes put the pod's name. */
  lemma EmptyValueForges(t: Table, i: nat, k: nat)
    requires t.Valid() && i < k < |t.tokens| && t.values[i] == ""
    ensures Passes("$" + t.tokens[i] + t.tokens[k][1..], t, 0)
         != Expand("$" + t.tokens[i] + t.tokens[k][1..], t)
  {
    var name := t.tokens[k][1..];
    var s := "$" + t.tokens[i] + name;
    ReadDollarThenToken(t, i, name);
    SpellsLaterToken(t, i, k);
    assert !Unforged(Read(s, t.tokens), t, k);
    PassesAreSimultaneousIff(s, t);
  }

  lemma SpellsLaterToken(t: Table, i: nat, k: nat)
    requires t.Valid() && i < k < |t.tokens| && t.values[i] == ""
    ensures var items := [Lit('$')] + ([Var(i)] + Letters(t.tokens[k][1..]));
            Over(items, t) && Forges(items, t, k, 0, |items|)
  {
    var name := t.tokens[k][1..];
    var items := [Lit('$')] + ([Var(i)] + Letters(name));
    assert items[1] == Var(i) && forall n | 2 <= n < |items| :: items[n].Lit?;
    assert items[0..|items|] == items;
    assert Render(items, t, k) == t.tokens[k] by {
      RenderLetters(name, t, k);
      RenderFront(Var(i), Letters(name), t, k);
      assert "" + name == name;
      RenderFront(Lit('$'), [Var(i)] + Letters(name), t, k);
      assert t.tokens[k] == ['$'] + name;
    }
  }

  lemma {:induction false} RenderLetters(s: string, t: Table, k: nat)
    requires t.Valid()
    ensures Render(Letters(s), t, k) == s
  {
    if s != "" {
      RenderLetters(s[1..], t, k);
      assert Letters(s)[1..] == Letters(s[1..]);
    }
  }
}
