/** Recognising a four-component dot product written out as a sum. */
module Dot4 {
  import opened Options
  import opened Syntax

  // -------------------------------------------------------------------- recognising

  predicate SwizzleChannel(c: char) {
    c in "xyzwrgba"
  }

  /** `x y z w` are 0 to 3, `r g b a` are 4 to 7. */
  function ChannelIndex(c: char): nat {
    match c
    case 'x' => 0
    case 'y' => 1
    case 'z' => 2
    case 'w' => 3
    case 'r' => 4
    case 'g' => 5
    case 'b' => 6
    case 'a' => 7
    case _ => 8
  }

  function FieldText(n: Node, f: Field, bytes: string): string {
    var c := ChildByField(n, f);
    if c.Some? then Text(c.value, bytes) else ""
  }

  /** One component of a vector. */
  datatype Component = Component(base: string, channel: nat)

  function DecomposeSwizzle(n: Node, bytes: string): (r: Option<Component>)
    ensures r.Some? ==> r.value.channel < 8
  {
    if !n.kind.FieldExpression? then None
    else
      var field := FieldText(n, FieldName, bytes);
      if |field| != 1 || !SwizzleChannel(field[0]) then None
      else
        var base := FieldText(n, Argument, bytes);
        if base == "" then None else Some(Component(base, ChannelIndex(field[0])))
  }

  predicate IsBinary(n: Node, op: string, bytes: string) {
    n.kind.BinaryExpression? && FieldText(n, Operator, bytes) == op
  }

  /** The product of the same component of two vectors. */
  datatype Product = Product(a: string, b: string, channel: nat)

  function SwizzleProduct(n: Node, bytes: string): (r: Option<Product>)
    ensures r.Some? ==> r.value.channel < 8
  {
    if !IsBinary(n, "*", bytes) then None
    else
      var lhs, rhs := ChildByField(n, Left), ChildByField(n, Right);
      if lhs.None? || rhs.None? then None
      else
        var l, r := DecomposeSwizzle(lhs.value, bytes), DecomposeSwizzle(rhs.value, bytes);
        if l.None? || r.None? || l.value.channel != r.value.channel then None
        else Some(Product(l.value.base, r.value.base, l.value.channel))
  }

  /** The terms of a sum, through parentheses. */
  function Flatten(n: Node, bytes: string): seq<Node>
    decreases n
  {
    if IsBinary(n, "+", bytes) then
      FlattenChild(n, Left, bytes) + FlattenChild(n, Right, bytes)
    else if n.kind.ParenthesizedExpression? && |Named(n.children)| == 1 then
      Flatten(OnlyNamed(n), bytes)
    else [n]
  }

  function FlattenChild(n: Node, f: Field, bytes: string): seq<Node>
    decreases n, 0
  {
    var c := ChildByField(n, f);
    if c.Some? then Flatten(c.value, bytes) else []
  }

  function OnlyNamed(n: Node): (c: Node)
    requires |Named(n.children)| == 1
    ensures c < n && c.named
  {
    assert Named(n.children)[0] in n.children;
    Named(n.children)[0]
  }

  method FlattenAddition(node: Node, bytes: string, out: seq<Node>) returns (r: seq<Node>)
    ensures r == out + Flatten(node, bytes)
    decreases node
  {
    hide FieldText, Named;
    if node.kind.BinaryExpression? {
      if FieldText(node, Operator, bytes) == "+" {
        var lhs, rhs := ChildByField(node, Left), ChildByField(node, Right);
        r := out;
        if lhs.Some? {
          r := FlattenAddition(lhs.value, bytes, r);
        }
        if rhs.Some? {
          r := FlattenAddition(rhs.value, bytes, r);
        }
        return;
      }
    }
    if node.kind.ParenthesizedExpression? && |Named(node.children)| == 1 {
      r := FlattenAddition(OnlyNamed(node), bytes, out);
      return;
    }
    return out + [node];
  }

  /** The products among the terms. */
  function Products(terms: seq<Node>, bytes: string): seq<Product> {
    if terms == [] then []
    else
      var p := SwizzleProduct(terms[|terms| - 1], bytes);
      Products(terms[..|terms| - 1], bytes) + if p.Some? then [p.value] else []
  }

  /** The four products of `dot(a, b)`, spelled with the channels from `k` on. */
  function DotProducts(a: string, b: string, k: nat): seq<Product> {
    [Product(a, b, k), Product(a, b, k + 1), Product(a, b, k + 2), Product(a, b, k + 3)]
  }

  /** The products of the sum are exactly those of one dot product. */
  ghost predicate IsDot(terms: seq<Node>, bytes: string, a: string, b: string) {
    || multiset(Products(terms, bytes)) == multiset(DotProducts(a, b, 0))
    || multiset(Products(terms, bytes)) == multiset(DotProducts(a, b, 4))
  }

  // ------------------------------------------------------------------------ meaning

  /** Exact values for vector components and for every expression that is not looked into. */
  datatype Env = Env(component: (string, nat) -> real, other: Node -> real)

  /** `r g b a` name the same components as `x y z w`. */
  function ComponentValue(env: Env, base: string, channel: nat): real {
    env.component(base, channel % 4)
  }

  function Value(env: Env, n: Node, bytes: string): real
    decreases n
  {
    if IsBinary(n, "+", bytes) then ValueOfChild(env, n, Left, bytes) + ValueOfChild(env, n, Right, bytes)
    else if IsBinary(n, "*", bytes) then ValueOfChild(env, n, Left, bytes) * ValueOfChild(env, n, Right, bytes)
    else if n.kind.ParenthesizedExpression? && |Named(n.children)| == 1 then Value(env, OnlyNamed(n), bytes)
    else
      var c := DecomposeSwizzle(n, bytes);
      if c.Some? then ComponentValue(env, c.value.base, c.value.channel) else env.other(n)
  }

  /** An operand the parser did not find adds nothing. */
  function ValueOfChild(env: Env, n: Node, f: Field, bytes: string): real
    decreases n, 0
  {
    var c := ChildByField(n, f);
    if c.Some? then Value(env, c.value, bytes) else 0.0
  }

  function Dot(env: Env, a: string, b: string): real {
    env.component(a, 0) * env.component(b, 0) + env.component(a, 1) * env.component(b, 1) +
    env.component(a, 2) * env.component(b, 2) + env.component(a, 3) * env.component(b, 3)
  }

  function Sum(env: Env, terms: seq<Node>, bytes: string): real {
    if terms == [] then 0.0
    else Sum(env, terms[..|terms| - 1], bytes) + Value(env, terms[|terms| - 1], bytes)
  }

  /** The sum of the terms that are not products of components. */
  function RestSum(env: Env, terms: seq<Node>, bytes: string): real {
    if terms == [] then 0.0
    else
      var t := terms[|terms| - 1];
      RestSum(env, terms[..|terms| - 1], bytes) + if SwizzleProduct(t, bytes).Some? then 0.0 else Value(env, t, bytes)
  }

  function ProductValue(env: Env, p: Product): real {
    ComponentValue(env, p.a, p.channel) * ComponentValue(env, p.b, p.channel)
  }

  function ProductSum(env: Env, products: seq<Product>): real {
    if products == [] then 0.0
    else ProductSum(env, products[..|products| - 1]) + ProductValue(env, products[|products| - 1])
  }

  lemma {:induction false} SumAppend(env: Env, a: seq<Node>, b: seq<Node>, bytes: string)
    ensures Sum(env, a + b, bytes) == Sum(env, a, bytes) + Sum(env, b, bytes)
  {
    if b == [] {
      assert a + b == a;
    } else {
      SumAppend(env, a, b[..|b| - 1], bytes);
      assert (a + b)[..|a + b| - 1] == a + b[..|b| - 1];
    }
  }

  /** Taking a sum apart keeps its value. */
  lemma {:induction false} FlattenKeepsValue(env: Env, n: Node, bytes: string)
    ensures Sum(env, Flatten(n, bytes), bytes) == Value(env, n, bytes)
    decreases n
  {
    if IsBinary(n, "+", bytes) {
      FlattenChildKeepsValue(env, n, Left, bytes);
      FlattenChildKeepsValue(env, n, Right, bytes);
      SumAppend(env, FlattenChild(n, Left, bytes), FlattenChild(n, Right, bytes), bytes);
    } else if n.kind.ParenthesizedExpression? && |Named(n.children)| == 1 {
      FlattenKeepsValue(env, OnlyNamed(n), bytes);
    } else {
      assert [n][..0] == [];
    }
  }

  lemma {:induction false} FlattenChildKeepsValue(env: Env, n: Node, f: Field, bytes: string)
    ensures Sum(env, FlattenChild(n, f, bytes), bytes) == ValueOfChild(env, n, f, bytes)
    decreases n, 0
  {
    var c := ChildByField(n, f);
    if c.Some? {
      FlattenKeepsValue(env, c.value, bytes);
    }
  }

  /** A recognised product is worth what it looks like. */
  lemma ProductIsWorth(env: Env, n: Node, bytes: string)
    requires SwizzleProduct(n, bytes).Some?
    ensures Value(env, n, bytes) == ProductValue(env, SwizzleProduct(n, bytes).value)
  {
    hide Value, DecomposeSwizzle, ChildByField;
    TimesIs(env, n, bytes);
    ComponentIsWorth(env, ChildByField(n, Left).value, bytes);
    ComponentIsWorth(env, ChildByField(n, Right).value, bytes);
  }

  lemma TimesIs(env: Env, n: Node, bytes: string)
    requires IsBinary(n, "*", bytes)
    ensures Value(env, n, bytes) == ValueOfChild(env, n, Left, bytes) * ValueOfChild(env, n, Right, bytes)
  {
  }

  lemma ComponentIsWorth(env: Env, n: Node, bytes: string)
    requires DecomposeSwizzle(n, bytes).Some?
    ensures var c := DecomposeSwizzle(n, bytes).value; Value(env, n, bytes) == ComponentValue(env, c.base, c.channel)
  {
  }

  lemma {:induction false} SumSplits(env: Env, terms: seq<Node>, bytes: string)
    ensures Sum(env, terms, bytes) == ProductSum(env, Products(terms, bytes)) + RestSum(env, terms, bytes)
  {
    hide Value, SwizzleProduct, ProductValue;
    if terms == [] {
    } else {
      var k := |terms| - 1;
      SumSplits(env, terms[..k], bytes);
      var before := Products(terms[..k], bytes);
      if SwizzleProduct(terms[k], bytes).Some? {
        ProductIsWorth(env, terms[k], bytes);
        var p := SwizzleProduct(terms[k], bytes).value;
        assert (before + [p])[..|before|] == before;
      } else {
        assert before + [] == before;
      }
    }
  }

  lemma {:induction false} ProductSumWithout(env: Env, products: seq<Product>, k: nat)
    requires k < |products|
    ensures ProductSum(env, products) == ProductSum(env, products[..k] + products[k + 1..]) + ProductValue(env, products[k])
  {
    hide ProductValue;
    var n := |products| - 1;
    var rest := products[..k] + products[k + 1..];
    if k < n {
      ProductSumWithout(env, products[..n], k);
      assert products[..n][..k] + products[..n][k + 1..] == rest[..n - 1];
    } else {
      assert rest == products[..n];
    }
  }

  lemma RemoveAt<T>(s: seq<T>, k: nat)
    requires k < |s|
    ensures multiset(s[..k] + s[k + 1..]) == multiset(s) - multiset{s[k]}
  {
    assert s == s[..k] + [s[k]] + s[k + 1..];
  }

  /** The first element of a list has its like in every rearrangement. */
  lemma MatchFirst<T>(s: seq<T>, t: seq<T>) returns (k: nat)
    requires multiset(s) == multiset(t) && s != []
    ensures k < |t| && t[k] == s[0]
    ensures multiset(s[..0] + s[1..]) == multiset(t[..k] + t[k + 1..])
  {
    assert s[0] in multiset(s) && s[0] in multiset(t);
    k :| k < |t| && t[k] == s[0];
    RemoveAt(s, 0);
    RemoveAt(t, k);
  }

  /** The order of products does not change their sum. */
  lemma {:induction false} ProductSumIgnoresOrder(env: Env, s: seq<Product>, t: seq<Product>)
    requires multiset(s) == multiset(t)
    ensures ProductSum(env, s) == ProductSum(env, t)
  {
    hide ProductSum, ProductValue;
    if s == [] {
      assert |t| == |multiset(t)| == 0;
    } else {
      var k := MatchFirst(s, t);
      ProductSumIgnoresOrder(env, s[..0] + s[1..], t[..k] + t[k + 1..]);
      ProductSumWithout(env, s, 0);
      ProductSumWithout(env, t, k);
    }
  }

  lemma ProductSumPush(env: Env, products: seq<Product>, p: Product)
    ensures ProductSum(env, products + [p]) == ProductSum(env, products) + ProductValue(env, p)
  {
  }

  lemma DotIsItsProducts(env: Env, a: string, b: string, c: nat)
    requires c == 0 || c == 4
    ensures Dot(env, a, b) ==
            ProductValue(env, Product(a, b, c)) + ProductValue(env, Product(a, b, c + 1)) +
            ProductValue(env, Product(a, b, c + 2)) + ProductValue(env, Product(a, b, c + 3))
  {
  }

  lemma SumOfFour(env: Env, p: Product, q: Product, r: Product, s: Product)
    ensures ProductSum(env, [p, q, r, s]) ==
            ProductValue(env, p) + ProductValue(env, q) + ProductValue(env, r) + ProductValue(env, s)
  {
    hide ProductValue, ProductSum;
    NoProducts(env, []);
    ProductSumPush(env, [], p);
    ProductSumPush(env, [p], q);
    ProductSumPush(env, [p, q], r);
    ProductSumPush(env, [p, q, r], s);
    assert [] + [p] == [p] && [p] + [q] == [p, q] && [p, q] + [r] == [p, q, r] && [p, q, r] + [s] == [p, q, r, s];
  }

  lemma NoProducts(env: Env, products: seq<Product>)
    requires products == []
    ensures ProductSum(env, products) == 0.0
  {
  }

  /** In whatever order, the four products add up to the dot product. */
  lemma DotProductsAddUp(env: Env, products: seq<Product>, a: string, b: string, c: nat)
    requires multiset(products) == multiset(DotProducts(a, b, c)) && (c == 0 || c == 4)
    ensures ProductSum(env, products) == Dot(env, a, b)
  {
    hide ProductValue, ProductSum, Dot;
    ProductSumIgnoresOrder(env, products, DotProducts(a, b, c));
    SumOfFour(env, Product(a, b, c), Product(a, b, c + 1), Product(a, b, c + 2), Product(a, b, c + 3));
    DotIsItsProducts(env, a, b, c);
  }

  /** Where the rule fires, the expression is the dot product plus the terms it leaves alone. */
  lemma RecognitionIsSound(env: Env, n: Node, bytes: string, a: string, b: string)
    requires IsDot(Flatten(n, bytes), bytes, a, b)
    ensures Value(env, n, bytes) == Dot(env, a, b) + RestSum(env, Flatten(n, bytes), bytes)
  {
    hide Value, Flatten, Products, RestSum, Dot, Sum, ProductSum;
    var terms := Flatten(n, bytes);
    FlattenKeepsValue(env, n, bytes);
    SumSplits(env, terms, bytes);
    var c := if multiset(Products(terms, bytes)) == multiset(DotProducts(a, b, 0)) then 0 else 4;
    DotProductsAddUp(env, Products(terms, bytes), a, b, c);
  }

  // ---------------------------------------------------------------------- the check

  predicate IsXyzwOrRgbaSet(seen: seq<bool>)
    requires |seen| == 8
  {
    (seen[0] && seen[1] && seen[2] && seen[3]) || (seen[4] && seen[5] && seen[6] && seen[7])
  }

  /** The rule's test: a sum whose products are exactly those of one dot product. */
  ghost predicate Fires(n: Node, bytes: string) {
    IsBinary(n, "+", bytes) && exists a, b :: IsDot(Flatten(n, bytes), bytes, a, b)
  }

  /** What the loop over the terms has found: all products agree on their vectors, and these channels. */
  ghost predicate Tallied(products: seq<Product>, seen: seq<bool>, a: string, b: string) {
    && |seen| == 8
    && (forall i :: 0 <= i < |products| ==> products[i].a == a && products[i].b == b && products[i].channel < 8)
    && (forall c :: 0 <= c < 8 ==> (seen[c] <==> HasChannel(products, c)))
  }

  ghost predicate HasChannel(products: seq<Product>, c: nat) {
    exists i :: 0 <= i < |products| && products[i].channel == c
  }

  lemma TallyOne(products: seq<Product>, seen: seq<bool>, p: Product)
    requires Tallied(products, seen, p.a, p.b) && p.channel < 8
    ensures Tallied(products + [p], seen[p.channel := true], p.a, p.b)
  {
    var more := products + [p];
    assert more[|products|] == p;
    forall c: nat | c < 8
      ensures HasChannel(more, c) <==> HasChannel(products, c) || c == p.channel
    {
      if HasChannel(products, c) {
        var i :| 0 <= i < |products| && products[i].channel == c;
        assert more[i].channel == c;
      }
    }
  }

  lemma NothingTallied(seen: seq<bool>, a: string, b: string)
    requires |seen| == 8 && forall c :: 0 <= c < 8 ==> !seen[c]
    ensures Tallied([], seen, a, b)
  {
  }

  /** Four products that show four channels show each of them once. */
  lemma FourChannels(products: seq<Product>, a: string, b: string, c: nat)
    requires |products| == 4
    requires forall i :: 0 <= i < 4 ==> products[i].a == a && products[i].b == b
    requires forall k: nat :: c <= k < c + 4 ==> HasChannel(products, k)
    ensures multiset(products) == multiset(DotProducts(a, b, c))
  {
    var m, dot := multiset(products), multiset(DotProducts(a, b, c));
    forall k: nat | c <= k < c + 4
      ensures Product(a, b, k) in m
    {
      assert HasChannel(products, k);
      var i :| 0 <= i < 4 && products[i].channel == k;
      assert products[i] == Product(a, b, k) && products[i] in products;
    }
    assert Product(a, b, c) in m && Product(a, b, c + 1) in m && Product(a, b, c + 2) in m && Product(a, b, c + 3) in m;
    assert |m| == 4 && |dot| == 4;
    SameSize(m, dot);
  }

  lemma SameSize<T>(m: multiset<T>, n: multiset<T>)
    requires n <= m && |m| == |n|
    ensures m == n
  {
    assert m == n + (m - n);
    assert |m - n| == 0;
  }

  /** Conversely, the products of a dot product are four and fill one half of the tally. */
  lemma DotIsTallied(products: seq<Product>, seen: seq<bool>, a: string, b: string, p: string, q: string, c: nat)
    requires multiset(products) == multiset(DotProducts(p, q, c)) && (c == 0 || c == 4)
    requires products != [] && Tallied(products, seen, a, b)
    ensures |products| == 4 && IsXyzwOrRgbaSet(seen) && a == p && b == q
  {
    assert |multiset(products)| == |products|;
    forall k | c <= k < c + 4
      ensures seen[k] && a == p && b == q
    {
      assert Product(p, q, k) in multiset(products);
      var i :| 0 <= i < |products| && products[i] == Product(p, q, k);
      assert HasChannel(products, k);
    }
  }

  method CheckAddition(node: Node, bytes: string) returns (fires: bool, firstA: string, firstB: string)
    ensures fires <==> Fires(node, bytes)
    ensures fires ==> IsDot(Flatten(node, bytes), bytes, firstA, firstB)
  {
    hide IsDot, Flatten;
    fires, firstA, firstB := false, "", "";
    if !IsBinary(node, "+", bytes) {
      return;
    }
    var terms := FlattenAddition(node, bytes, []);
    assert terms == Flatten(node, bytes);
    if |terms| < 4 {
      FewTerms(terms, bytes);
      return;
    }
    fires, firstA, firstB := CheckTerms(terms, bytes);
  }

  method CheckTerms(terms: seq<Node>, bytes: string) returns (fires: bool, firstA: string, firstB: string)
    ensures fires <==> exists a, b :: IsDot(terms, bytes, a, b)
    ensures fires ==> IsDot(terms, bytes, firstA, firstB)
  {
    hide IsDot, SwizzleProduct, Tallied, IsXyzwOrRgbaSet, Products;
    fires, firstA, firstB := false, "", "";
    var seen := new bool[8](_ => false);
    var productCount := 0;
    NothingTallied(seen[..], firstA, firstB);
    ProductsNext(terms, bytes, 0);
    for k := 0 to |terms|
      invariant productCount == |Products(terms[..k], bytes)|
      invariant Tallied(Products(terms[..k], bytes), seen[..], firstA, firstB)
      invariant productCount == 0 ==> forall c :: 0 <= c < 8 ==> !seen[c]
    {
      ProductsNext(terms, bytes, k);
      var product := SwizzleProduct(terms[k], bytes);
      if product.None? {
        continue;
      }
      var p := product.value;
      ghost var before := Products(terms[..k], bytes);
      if productCount == 0 {
        firstA, firstB := p.a, p.b;
        assert before == [];
        NothingTallied(seen[..], firstA, firstB);
      } else if p.a != firstA || p.b != firstB {
        MixedVectors(terms, bytes, k, seen[..], firstA, firstB);
        return;
      }
      TallyOne(before, seen[..], p);
      assert seen[..][p.channel := true] == seen[..p.channel] + [true] + seen[p.channel + 1..];
      seen[p.channel] := true;
      productCount := productCount + 1;
    }
    assert terms[..|terms|] == terms;
    fires := productCount == 4 && IsXyzwOrRgbaSet(seen[..]);
    TallyDecides(terms, bytes, seen[..], firstA, firstB);
  }

  lemma ProductsNext(terms: seq<Node>, bytes: string, k: nat)
    requires k <= |terms|
    ensures k == 0 ==> Products(terms[..k], bytes) == []
    ensures k < |terms| ==>
              Products(terms[..k + 1], bytes) ==
              if SwizzleProduct(terms[k], bytes).Some? then Products(terms[..k], bytes) + [SwizzleProduct(terms[k], bytes).value]
              else Products(terms[..k], bytes)
  {
    if k < |terms| {
      assert terms[..k + 1][..k] == terms[..k];
    }
  }

  lemma {:induction false} ProductsAreFew(terms: seq<Node>, bytes: string)
    ensures |Products(terms, bytes)| <= |terms|
  {
    if terms == [] {
    } else {
      ProductsAreFew(terms[..|terms| - 1], bytes);
    }
  }

  lemma FewTerms(terms: seq<Node>, bytes: string)
    requires |terms| < 4
    ensures forall a, b :: !IsDot(terms, bytes, a, b)
  {
    ProductsAreFew(terms, bytes);
    assert |multiset(Products(terms, bytes))| == |Products(terms, bytes)|;
  }

  lemma {:induction false} ProductsGrow(terms: seq<Node>, bytes: string, k: nat)
    requires k <= |terms|
    ensures forall p :: p in Products(terms[..k], bytes) ==> p in Products(terms, bytes)
  {
    if k < |terms| {
      ProductsGrow(terms[..|terms| - 1], bytes, k);
      assert terms[..|terms| - 1][..k] == terms[..k];
    } else {
      assert terms[..k] == terms;
    }
  }

  /** Products of different vectors are no dot product. */
  lemma MixedVectors(terms: seq<Node>, bytes: string, k: nat, seen: seq<bool>, a: string, b: string)
    requires k < |terms| && SwizzleProduct(terms[k], bytes).Some?
    requires var p := SwizzleProduct(terms[k], bytes).value; p.a != a || p.b != b
    requires Products(terms[..k], bytes) != [] && Tallied(Products(terms[..k], bytes), seen, a, b)
    ensures forall x, y :: !IsDot(terms, bytes, x, y)
  {
    hide SwizzleProduct, HasChannel, IsDot;
    var p, q := Products(terms[..k], bytes)[0], SwizzleProduct(terms[k], bytes).value;
    assert p.a == a && p.b == b;
    assert terms[..k + 1][..k] == terms[..k];
    assert q in Products(terms[..k + 1], bytes);
    ProductsGrow(terms, bytes, k);
    ProductsGrow(terms, bytes, k + 1);
    forall x, y
      ensures !IsDot(terms, bytes, x, y)
    {
      if IsDot(terms, bytes, x, y) {
        DotVectors(terms, bytes, x, y, p);
        DotVectors(terms, bytes, x, y, q);
      }
    }
  }

  lemma DotVectors(terms: seq<Node>, bytes: string, a: string, b: string, p: Product)
    requires IsDot(terms, bytes, a, b) && p in Products(terms, bytes)
    ensures p.a == a && p.b == b
  {
    hide Products, DotProducts;
    assert p in multiset(Products(terms, bytes));
    var c := if multiset(Products(terms, bytes)) == multiset(DotProducts(a, b, 0)) then 0 else 4;
    InDotProducts(p, a, b, c);
  }

  lemma InDotProducts(p: Product, a: string, b: string, c: nat)
    requires p in multiset(DotProducts(a, b, c))
    ensures p.a == a && p.b == b
  {
    assert p in DotProducts(a, b, c);
  }

  lemma FullTallyIsDot(terms: seq<Node>, bytes: string, seen: seq<bool>, a: string, b: string)
    requires Tallied(Products(terms, bytes), seen, a, b) && |Products(terms, bytes)| == 4 && IsXyzwOrRgbaSet(seen)
    ensures IsDot(terms, bytes, a, b)
  {
    hide Products, HasChannel;
    var c := if seen[0] && seen[1] && seen[2] && seen[3] then 0 else 4;
    FourChannels(Products(terms, bytes), a, b, c);
  }

  lemma TallyDecides(terms: seq<Node>, bytes: string, seen: seq<bool>, a: string, b: string)
    requires |seen| == 8 && Tallied(Products(terms, bytes), seen, a, b)
    ensures |Products(terms, bytes)| == 4 && IsXyzwOrRgbaSet(seen) ==> IsDot(terms, bytes, a, b)
    ensures (exists p, q :: IsDot(terms, bytes, p, q)) ==> |Products(terms, bytes)| == 4 && IsXyzwOrRgbaSet(seen)
  {
    hide Products, HasChannel, IsXyzwOrRgbaSet, Tallied;
    var products := Products(terms, bytes);
    if |products| == 4 && |seen| == 8 && IsXyzwOrRgbaSet(seen) {
      FullTallyIsDot(terms, bytes, seen, a, b);
    }
    if p, q :| IsDot(terms, bytes, p, q) {
      var c := if multiset(products) == multiset(DotProducts(p, q, 0)) then 0 else 4;
      assert Product(p, q, c) in multiset(products);
      DotIsTallied(products, seen, a, b, p, q, c);
    }
  }

  // ------------------------------------------------------------ associations and orders

  lemma ProductsPush(s: seq<Node>, t: Node, bytes: string)
    ensures multiset(Products(s + [t], bytes)) == multiset(Products(s, bytes)) + multiset(Products([t], bytes))
  {
  }

  lemma {:induction false} ProductsWithout(terms: seq<Node>, bytes: string, k: nat)
    requires k < |terms|
    ensures multiset(Products(terms, bytes)) ==
            multiset(Products(terms[..k] + terms[k + 1..], bytes)) + multiset(Products([terms[k]], bytes))
  {
    hide Products;
    var n := |terms| - 1;
    var rest := terms[..k] + terms[k + 1..];
    ProductsPush(terms[..n], terms[n], bytes);
    assert terms == terms[..n] + [terms[n]];
    if k < n {
      ProductsWithout(terms[..n], bytes, k);
      var inner := terms[..n][..k] + terms[..n][k + 1..];
      ProductsPush(inner, terms[n], bytes);
      assert rest == inner + [terms[n]];
    } else {
      assert rest == terms[..n];
    }
  }

  /** An expression as it reads: its kind, its text and those of its parts, wherever it stands. */
  datatype Term = Term(kind: Kind, named: bool, text: string, parts: seq<Part>)

  datatype Part = Part(field: Field, term: Term)

  /** Forgets where a node stands, and which field of its parent it fills. */
  function Erase(n: Node, bytes: string): Term
    decreases n
  {
    Term(n.kind, n.named, Text(n, bytes),
         seq(|n.children|, i requires 0 <= i < |n.children| => Part(n.children[i].field, Erase(n.children[i], bytes))))
  }

  function Erased(terms: seq<Node>, bytes: string): (r: seq<Term>)
    ensures |r| == |terms|
  {
    seq(|terms|, i requires 0 <= i < |terms| => Erase(terms[i], bytes))
  }

  /** Lists that read the same, fields included. */
  ghost predicate SameParts(s: seq<Node>, bytes: string, t: seq<Node>, bytes': string) {
    && |s| == |t|
    && forall i :: 0 <= i < |s| ==>
         s[i].field == t[i].field && s[i].named == t[i].named && Erase(s[i], bytes) == Erase(t[i], bytes')
  }

  lemma PartsOfSame(n: Node, bytes: string, m: Node, bytes': string)
    requires Erase(n, bytes) == Erase(m, bytes')
    ensures SameParts(n.children, bytes, m.children, bytes')
  {
    var s, t := Erase(n, bytes).parts, Erase(m, bytes').parts;
    forall i | 0 <= i < |n.children|
      ensures n.children[i].field == m.children[i].field && n.children[i].named == m.children[i].named
      ensures Erase(n.children[i], bytes) == Erase(m.children[i], bytes')
    {
      assert s[i] == t[i];
      assert s[i].term.named == n.children[i].named && t[i].term.named == m.children[i].named;
    }
  }

  lemma {:induction false} SameFirst(s: seq<Node>, bytes: string, t: seq<Node>, bytes': string, f: Field)
    requires SameParts(s, bytes, t, bytes')
    ensures FirstWithField(s, f).Some? <==> FirstWithField(t, f).Some?
    ensures FirstWithField(s, f).Some? ==> Erase(FirstWithField(s, f).value, bytes) == Erase(FirstWithField(t, f).value, bytes')
  {
    hide Erase;
    if s == [] {
      assert t == [];
    } else {
      SameFirst(s[1..], bytes, t[1..], bytes', f);
    }
  }

  lemma TailParts(s: seq<Node>, bytes: string, t: seq<Node>, bytes': string)
    requires SameParts(s, bytes, t, bytes') && s != []
    ensures |t| == |s| && s[0].field == t[0].field && s[0].named == t[0].named && Erase(s[0], bytes) == Erase(t[0], bytes')
    ensures SameParts(s[1..], bytes, t[1..], bytes')
  {
    hide Erase;
  }

  lemma MoreParts(n: Node, s: seq<Node>, bytes: string, m: Node, t: seq<Node>, bytes': string)
    requires n.field == m.field && n.named == m.named && Erase(n, bytes) == Erase(m, bytes') && SameParts(s, bytes, t, bytes')
    ensures SameParts([n] + s, bytes, [m] + t, bytes')
  {
    hide Erase;
  }

  lemma {:induction false} SameNamed(s: seq<Node>, bytes: string, t: seq<Node>, bytes': string)
    requires SameParts(s, bytes, t, bytes')
    ensures SameParts(Named(s), bytes, Named(t), bytes')
  {
    hide Erase;
    if s == [] {
      assert t == [];
    } else {
      TailParts(s, bytes, t, bytes');
      hide SameParts;
      SameNamed(s[1..], bytes, t[1..], bytes');
      if s[0].named {
        MoreParts(s[0], Named(s[1..]), bytes, t[0], Named(t[1..]), bytes');
      }
    }
  }

  /** Nodes that read the same have children that do, and the same texts in their fields. */
  lemma SameChild(n: Node, bytes: string, m: Node, bytes': string, f: Field)
    requires Erase(n, bytes) == Erase(m, bytes')
    ensures n.kind == m.kind && FieldText(n, f, bytes) == FieldText(m, f, bytes')
    ensures ChildByField(n, f).Some? <==> ChildByField(m, f).Some?
    ensures ChildByField(n, f).Some? ==> Erase(ChildByField(n, f).value, bytes) == Erase(ChildByField(m, f).value, bytes')
  {
    PartsOfSame(n, bytes, m, bytes');
    SameFirst(n.children, bytes, m.children, bytes', f);
    if ChildByField(n, f).Some? {
      var c, d := ChildByField(n, f).value, ChildByField(m, f).value;
      assert Erase(c, bytes).text == Text(c, bytes) && Erase(d, bytes').text == Text(d, bytes');
    }
  }

  lemma SameSwizzle(n: Node, bytes: string, m: Node, bytes': string)
    requires Erase(n, bytes) == Erase(m, bytes')
    ensures DecomposeSwizzle(n, bytes) == DecomposeSwizzle(m, bytes')
  {
    hide Erase, FieldText;
    SameChild(n, bytes, m, bytes', FieldName);
    SameChild(n, bytes, m, bytes', Argument);
  }

  /** Nodes that read the same are the same product, or both are none. */
  lemma SameProduct(n: Node, bytes: string, m: Node, bytes': string)
    requires Erase(n, bytes) == Erase(m, bytes')
    ensures SwizzleProduct(n, bytes) == SwizzleProduct(m, bytes')
  {
    hide Erase, FieldText, DecomposeSwizzle;
    SameChild(n, bytes, m, bytes', Operator);
    SameChild(n, bytes, m, bytes', Left);
    SameChild(n, bytes, m, bytes', Right);
    if ChildByField(n, Left).Some? && ChildByField(n, Right).Some? {
      SameSwizzle(ChildByField(n, Left).value, bytes, ChildByField(m, Left).value, bytes');
      SameSwizzle(ChildByField(n, Right).value, bytes, ChildByField(m, Right).value, bytes');
    }
  }

  /** Sums that read the same have terms that read the same. */
  lemma {:induction false} SameTerms(n: Node, bytes: string, m: Node, bytes': string)
    requires Erase(n, bytes) == Erase(m, bytes')
    ensures Erased(Flatten(n, bytes), bytes) == Erased(Flatten(m, bytes'), bytes')
    decreases n
  {
    hide Erase, FieldText;
    SameChild(n, bytes, m, bytes', Operator);
    if IsBinary(n, "+", bytes) {
      SameChildTerms(n, bytes, m, bytes', Left);
      SameChildTerms(n, bytes, m, bytes', Right);
      ErasedJoin(FlattenChild(n, Left, bytes), FlattenChild(n, Right, bytes), bytes);
      ErasedJoin(FlattenChild(m, Left, bytes'), FlattenChild(m, Right, bytes'), bytes');
    } else {
      PartsOfSame(n, bytes, m, bytes');
      SameNamed(n.children, bytes, m.children, bytes');
      if n.kind.ParenthesizedExpression? && |Named(n.children)| == 1 {
        SameTerms(OnlyNamed(n), bytes, OnlyNamed(m), bytes');
      }
    }
  }

  lemma {:induction false} SameChildTerms(n: Node, bytes: string, m: Node, bytes': string, f: Field)
    requires Erase(n, bytes) == Erase(m, bytes')
    ensures Erased(FlattenChild(n, f, bytes), bytes) == Erased(FlattenChild(m, f, bytes'), bytes')
    decreases n, 0
  {
    hide Erase;
    SameChild(n, bytes, m, bytes', f);
    if ChildByField(n, f).Some? {
      SameTerms(ChildByField(n, f).value, bytes, ChildByField(m, f).value, bytes');
    }
  }

  lemma ErasedJoin(s: seq<Node>, t: seq<Node>, bytes: string)
    ensures Erased(s + t, bytes) == Erased(s, bytes) + Erased(t, bytes)
  {
  }

  /** The products depend on how the terms read, not on where they stand and in which order. */
  lemma {:induction false} ProductsIgnoreOrder(s: seq<Node>, bytes: string, t: seq<Node>, bytes': string)
    requires multiset(Erased(s, bytes)) == multiset(Erased(t, bytes'))
    ensures multiset(Products(s, bytes)) == multiset(Products(t, bytes'))
  {
    hide Products, Erase;
    var es, et := Erased(s, bytes), Erased(t, bytes');
    if s == [] {
      assert |multiset(es)| == |es| && |multiset(et)| == |et|;
      assert t == [];
      NoTerms(bytes);
      NoTerms(bytes');
    } else {
      var k := MatchFirst(es, et);
      var rs, rt := s[..0] + s[1..], t[..k] + t[k + 1..];
      assert Erased(rs, bytes) == es[..0] + es[1..];
      assert Erased(rt, bytes') == et[..k] + et[k + 1..];
      ProductsIgnoreOrder(rs, bytes, rt, bytes');
      ProductsWithout(s, bytes, 0);
      ProductsWithout(t, bytes', k);
      SameSingleton(s[0], bytes, t[k], bytes');
    }
  }

  lemma NoTerms(bytes: string)
    ensures Products([], bytes) == []
  {
  }

  lemma SameSingleton(n: Node, bytes: string, m: Node, bytes': string)
    requires Erase(n, bytes) == Erase(m, bytes')
    ensures Products([n], bytes) == Products([m], bytes')
  {
    hide Erase, SwizzleProduct;
    SameProduct(n, bytes, m, bytes');
    assert [n][..0] == [] && [m][..0] == [];
  }

  /** However the same terms are ordered and bracketed, and wherever they stand, the rule fires or not alike. */
  lemma FiresForEveryArrangement(n: Node, bytes: string, m: Node, bytes': string)
    requires IsBinary(n, "+", bytes) && IsBinary(m, "+", bytes')
    requires multiset(Erased(Flatten(n, bytes), bytes)) == multiset(Erased(Flatten(m, bytes'), bytes'))
    ensures Fires(n, bytes) <==> Fires(m, bytes')
  {
    hide Flatten, Products;
    ProductsIgnoreOrder(Flatten(n, bytes), bytes, Flatten(m, bytes'), bytes');
    forall a, b
      ensures IsDot(Flatten(n, bytes), bytes, a, b) <==> IsDot(Flatten(m, bytes'), bytes', a, b)
    {
    }
  }

  /** The two expressions read the same, wherever they stand. */
  ghost predicate Alike(n: Node, bytes: string, m: Node, bytes': string) {
    Erase(n, bytes) == Erase(m, bytes')
  }

  lemma AlikeTerms(n: Node, bytes: string, m: Node, bytes': string)
    requires Alike(n, bytes, m, bytes')
    ensures Erased(Flatten(n, bytes), bytes) == Erased(Flatten(m, bytes'), bytes')
  {
    SameTerms(n, bytes, m, bytes');
  }

  /** `n` is the sum of `a` and `b`. */
  predicate IsSum(n: Node, a: Node, b: Node, bytes: string) {
    IsBinary(n, "+", bytes) && ChildByField(n, Left) == Some(a) && ChildByField(n, Right) == Some(b)
  }

  /** `n` is `inner`, or `inner` in parentheses. */
  predicate Brackets(n: Node, inner: Node) {
    n == inner || (n.kind.ParenthesizedExpression? && Named(n.children) == [inner])
  }

  lemma BracketsFlatten(n: Node, inner: Node, bytes: string)
    requires Brackets(n, inner)
    ensures Flatten(n, bytes) == Flatten(inner, bytes)
  {
  }

  /** The terms of a sum are those of its operands, parentheses around them aside. */
  lemma SumReads(n: Node, p: Node, q: Node, a: Node, b: Node, bytes: string)
    requires IsSum(n, p, q, bytes) && Brackets(p, a) && Brackets(q, b)
    ensures IsBinary(n, "+", bytes)
    ensures Erased(Flatten(n, bytes), bytes) == Erased(Flatten(a, bytes), bytes) + Erased(Flatten(b, bytes), bytes)
  {
    hide Erase, Erased, Brackets;
    BracketsFlatten(p, a, bytes);
    BracketsFlatten(q, b, bytes);
    ErasedJoin(Flatten(a, bytes), Flatten(b, bytes), bytes);
    assert Flatten(n, bytes) == Flatten(p, bytes) + Flatten(q, bytes);
  }

  lemma Swap<T>(a: seq<T>, b: seq<T>)
    ensures multiset(a + b) == multiset(b + a)
  {
  }

  /** `a + b` and `b + a`. */
  lemma SwappedOperands(n: Node, a: Node, b: Node, bytes: string, m: Node, a': Node, b': Node, bytes': string)
    requires IsSum(n, a, b, bytes) && IsSum(m, b', a', bytes')
    requires Alike(a, bytes, a', bytes') && Alike(b, bytes, b', bytes')
    ensures Fires(n, bytes) <==> Fires(m, bytes')
  {
    hide Flatten, Erase, Erased, Fires, IsBinary, ChildByField;
    SumReads(n, a, b, a, b, bytes);
    SumReads(m, b', a', b', a', bytes');
    hide *;
    AlikeTerms(a, bytes, a', bytes');
    AlikeTerms(b, bytes, b', bytes');
    Swap(Erased(Flatten(a, bytes), bytes), Erased(Flatten(b, bytes), bytes));
    FiresForEveryArrangement(n, bytes, m, bytes');
  }

  lemma LeftGrouped(n: Node, p: Node, ab: Node, a: Node, b: Node, c: Node, bytes: string, x: seq<Term>, y: seq<Term>, z: seq<Term>)
    requires IsSum(n, p, c, bytes) && Brackets(p, ab) && IsSum(ab, a, b, bytes)
    requires Erased(Flatten(a, bytes), bytes) == x && Erased(Flatten(b, bytes), bytes) == y && Erased(Flatten(c, bytes), bytes) == z
    ensures IsBinary(n, "+", bytes) && Erased(Flatten(n, bytes), bytes) == x + y + z
  {
    hide Flatten, Erase, Erased, Fires, IsBinary, ChildByField, IsSum;
    SumReads(n, p, c, ab, c, bytes);
    SumReads(ab, a, b, a, b, bytes);
  }

  lemma RightGrouped(m: Node, a: Node, q: Node, bc: Node, b: Node, c: Node, bytes: string, x: seq<Term>, y: seq<Term>, z: seq<Term>)
    requires IsSum(m, a, q, bytes) && Brackets(q, bc) && IsSum(bc, b, c, bytes)
    requires Erased(Flatten(a, bytes), bytes) == x && Erased(Flatten(b, bytes), bytes) == y && Erased(Flatten(c, bytes), bytes) == z
    ensures IsBinary(m, "+", bytes) && Erased(Flatten(m, bytes), bytes) == x + y + z
  {
    hide Flatten, Erase, Erased, Fires, IsBinary, ChildByField, IsSum;
    SumReads(m, a, q, a, bc, bytes);
    SumReads(bc, b, c, b, c, bytes);
    assert x + y + z == x + (y + z);
  }

  /** `(a + b) + c` and `a + (b + c)`, whether the inner sums stand in parentheses or not. */
  lemma RebracketedOperands(n: Node, p: Node, ab: Node, a: Node, b: Node, c: Node, bytes: string,
                            m: Node, q: Node, bc: Node, a': Node, b': Node, c': Node, bytes': string)
    requires IsSum(n, p, c, bytes) && Brackets(p, ab) && IsSum(ab, a, b, bytes)
    requires IsSum(m, a', q, bytes') && Brackets(q, bc) && IsSum(bc, b', c', bytes')
    requires Alike(a, bytes, a', bytes') && Alike(b, bytes, b', bytes')
    requires Alike(c, bytes, c', bytes')
    ensures Fires(n, bytes) <==> Fires(m, bytes')
  {
    hide *;
    AlikeTerms(a, bytes, a', bytes');
    AlikeTerms(b, bytes, b', bytes');
    AlikeTerms(c, bytes, c', bytes');
    var x, y, z := Erased(Flatten(a, bytes), bytes), Erased(Flatten(b, bytes), bytes), Erased(Flatten(c, bytes), bytes);
    LeftGrouped(n, p, ab, a, b, c, bytes, x, y, z);
    RightGrouped(m, a', q, bc, b', c', bytes', x, y, z);
    FiresForEveryArrangement(n, bytes, m, bytes');
  }

  // ------------------------------------------------------------------ written-out sums

  /** `n` reads `base.c`. */
  predicate Shows(n: Node, bytes: string, base: string, c: char) {
    n.kind.FieldExpression? && FieldText(n, FieldName, bytes) == [c] && base != "" && FieldText(n, Argument, bytes) == base
  }

  /** `n` reads `a.c * b.c`. */
  ghost predicate ShowsProduct(n: Node, bytes: string, a: string, b: string, c: char) {
    IsBinary(n, "*", bytes)
    && exists l, r :: ChildByField(n, Left) == Some(l) && ChildByField(n, Right) == Some(r) && Shows(l, bytes, a, c) && Shows(r, bytes, b, c)
  }

  lemma ShownIs(n: Node, bytes: string, a: string, b: string, c: char)
    requires ShowsProduct(n, bytes, a, b, c) && c in "xyzwrgba"
    ensures SwizzleProduct(n, bytes) == Some(Product(a, b, ChannelIndex(c))) && Flatten(n, bytes) == [n]
  {
  }

  /** Nothing else is a product of components. */
  lemma ProductsAreShown(n: Node, bytes: string)
    ensures SwizzleProduct(n, bytes).Some? <==> exists a, b, c :: c in "xyzwrgba" && ShowsProduct(n, bytes, a, b, c)
  {
    if SwizzleProduct(n, bytes).Some? {
      var l, r := ChildByField(n, Left).value, ChildByField(n, Right).value;
      var c, d := FieldText(l, FieldName, bytes)[0], FieldText(r, FieldName, bytes)[0];
      ChannelsDiffer(c, d);
      assert FieldText(l, FieldName, bytes) == [c] && FieldText(r, FieldName, bytes) == [d];
      assert ShowsProduct(n, bytes, FieldText(l, Argument, bytes), FieldText(r, Argument, bytes), c);
    }
    forall a, b, c | c in "xyzwrgba" && ShowsProduct(n, bytes, a, b, c)
      ensures SwizzleProduct(n, bytes).Some?
    {
      ShownIs(n, bytes, a, b, c);
    }
  }

  lemma ChannelsDiffer(c: char, d: char)
    requires c in "xyzwrgba" && d in "xyzwrgba" && ChannelIndex(c) == ChannelIndex(d)
    ensures c == d
  {
  }

  lemma SetsAre(c: char)
    ensures c in "xyzw" <==> ChannelIndex(c) < 4
    ensures c in "rgba" <==> 4 <= ChannelIndex(c) < 8
  {
    if c in "xyzw" || c in "rgba" {
      assert "xyzw"[0] == 'x' && "rgba"[0] == 'r';
    }
    assert ChannelIndex(c) < 4 ==> "xyzw"[ChannelIndex(c)] == c;
    assert 4 <= ChannelIndex(c) < 8 ==> "rgba"[ChannelIndex(c) - 4] == c;
  }

  /** The sum of the four products of one channel set, written from left to right, fires. */
  lemma WrittenOutFires(n: Node, n2: Node, n1: Node, x: Node, y: Node, z: Node, w: Node, bytes: string,
                        a: string, b: string, channels: string)
    requires channels in {"xyzw", "rgba"}
    requires IsSum(n, n2, w, bytes) && IsSum(n2, n1, z, bytes) && IsSum(n1, x, y, bytes)
    requires ShowsProduct(x, bytes, a, b, channels[0]) && ShowsProduct(y, bytes, a, b, channels[1])
    requires ShowsProduct(z, bytes, a, b, channels[2]) && ShowsProduct(w, bytes, a, b, channels[3])
    ensures Fires(n, bytes)
  {
    var k := if channels == "xyzw" then 0 else 4;
    ChannelsOf(channels, k);
    ShownIs(x, bytes, a, b, channels[0]);
    ShownIs(y, bytes, a, b, channels[1]);
    ShownIs(z, bytes, a, b, channels[2]);
    ShownIs(w, bytes, a, b, channels[3]);
    hide *;
    FlattenFour(n, n2, n1, x, y, z, w, bytes);
    FourMakeDot(x, y, z, w, bytes, a, b, k);
    DotFires(n, bytes, a, b);
  }

  lemma FlattenFour(n: Node, n2: Node, n1: Node, x: Node, y: Node, z: Node, w: Node, bytes: string)
    requires IsSum(n, n2, w, bytes) && IsSum(n2, n1, z, bytes) && IsSum(n1, x, y, bytes)
    requires Flatten(x, bytes) == [x] && Flatten(y, bytes) == [y] && Flatten(z, bytes) == [z] && Flatten(w, bytes) == [w]
    ensures IsBinary(n, "+", bytes) && Flatten(n, bytes) == [x, y, z, w]
  {
    SumIsBinary(n, n2, w, bytes);
    hide *;
    FlattenSum(n1, x, y, bytes);
    FlattenSum(n2, n1, z, bytes);
    FlattenSum(n, n2, w, bytes);
    Four(x, y, z, w);
  }

  lemma Four<T>(x: T, y: T, z: T, w: T)
    ensures [x] + [y] + [z] + [w] == [x, y, z, w]
  {
  }

  lemma SumIsBinary(n: Node, l: Node, r: Node, bytes: string)
    requires IsSum(n, l, r, bytes)
    ensures IsBinary(n, "+", bytes)
  {
  }

  lemma FourMakeDot(x: Node, y: Node, z: Node, w: Node, bytes: string, a: string, b: string, k: nat)
    requires k == 0 || k == 4
    requires SwizzleProduct(x, bytes) == Some(Product(a, b, k)) && SwizzleProduct(y, bytes) == Some(Product(a, b, k + 1))
    requires SwizzleProduct(z, bytes) == Some(Product(a, b, k + 2)) && SwizzleProduct(w, bytes) == Some(Product(a, b, k + 3))
    ensures IsDot([x, y, z, w], bytes, a, b)
  {
    hide SwizzleProduct, Products;
    FourProducts(x, y, z, w, bytes, DotProducts(a, b, k));
  }

  lemma DotFires(n: Node, bytes: string, a: string, b: string)
    requires IsBinary(n, "+", bytes) && IsDot(Flatten(n, bytes), bytes, a, b)
    ensures Fires(n, bytes)
  {
  }

  lemma ChannelsOf(channels: string, k: nat)
    requires (channels == "xyzw" && k == 0) || (channels == "rgba" && k == 4)
    ensures forall i :: 0 <= i < 4 ==> ChannelIndex(channels[i]) == k + i && channels[i] in "xyzwrgba"
  {
    assert "xyzwrgba"[0] == 'x' && "xyzwrgba"[1] == 'y' && "xyzwrgba"[2] == 'z' && "xyzwrgba"[3] == 'w';
    assert "xyzwrgba"[4] == 'r' && "xyzwrgba"[5] == 'g' && "xyzwrgba"[6] == 'b' && "xyzwrgba"[7] == 'a';
  }

  lemma FlattenSum(n: Node, l: Node, r: Node, bytes: string)
    requires IsSum(n, l, r, bytes)
    ensures Flatten(n, bytes) == Flatten(l, bytes) + Flatten(r, bytes)
  {
  }

  lemma FourProducts(x: Node, y: Node, z: Node, w: Node, bytes: string, products: seq<Product>)
    requires |products| == 4
    requires SwizzleProduct(x, bytes) == Some(products[0]) && SwizzleProduct(y, bytes) == Some(products[1])
    requires SwizzleProduct(z, bytes) == Some(products[2]) && SwizzleProduct(w, bytes) == Some(products[3])
    ensures Products([x, y, z, w], bytes) == products
  {
    hide SwizzleProduct;
    var terms := [x, y, z, w];
    assert terms[..3] == [x, y, z] && [x, y, z][..2] == [x, y] && [x, y][..1] == [x] && [x][..0] == [];
    assert Products([x], bytes) == [products[0]];
    assert Products([x, y], bytes) == [products[0], products[1]];
    assert Products([x, y, z], bytes) == [products[0], products[1], products[2]];
  }

  /** A sum with products from both channel sets never fires. */
  lemma MixedSetsNeverFire(n: Node, bytes: string, t: Node, a: string, b: string, c: char, u: Node, a': string, b': string, d: char)
    requires t in Flatten(n, bytes) && ShowsProduct(t, bytes, a, b, c) && c in "xyzw"
    requires u in Flatten(n, bytes) && ShowsProduct(u, bytes, a', b', d) && d in "rgba"
    ensures !Fires(n, bytes)
  {
    ShownIs(t, bytes, a, b, c);
    ShownIs(u, bytes, a', b', d);
    SetsAre(c);
    SetsAre(d);
    hide Flatten, ShowsProduct, SwizzleProduct;
    ProductsHave(Flatten(n, bytes), bytes, t);
    ProductsHave(Flatten(n, bytes), bytes, u);
    if p, q :| IsDot(Flatten(n, bytes), bytes, p, q) {
      var k := if multiset(Products(Flatten(n, bytes), bytes)) == multiset(DotProducts(p, q, 0)) then 0 else 4;
      ChannelsOfDot(Product(a, b, ChannelIndex(c)), p, q, k);
      ChannelsOfDot(Product(a', b', ChannelIndex(d)), p, q, k);
    }
  }

  lemma ChannelsOfDot(p: Product, a: string, b: string, k: nat)
    ensures p in multiset(DotProducts(a, b, k)) ==> k <= p.channel < k + 4
  {
    if p in multiset(DotProducts(a, b, k)) {
      assert p in DotProducts(a, b, k);
    }
  }

  lemma {:induction false} ProductsHave(terms: seq<Node>, bytes: string, t: Node)
    requires t in terms && SwizzleProduct(t, bytes).Some?
    ensures SwizzleProduct(t, bytes).value in multiset(Products(terms, bytes))
    decreases |terms|
  {
    hide SwizzleProduct;
    var k := |terms| - 1;
    if terms[k] != t {
      assert terms == terms[..k] + [terms[k]];
      ProductsHave(terms[..k], bytes, t);
    }
  }
}
