/** The lexical baseline: cosine similarity of sparse TF-IDF vectors.

    Square root and natural logarithm are parameters; tokens are given. */
module Tfidf {
  import opened RealArith
  import C = Correlation

  type Vector = map<string, real>

  ghost predicate IsLn(ln: real -> real) {
    ln(1.0) == 0.0 && forall x, y | 1.0 <= x <= y :: ln(x) <= ln(y)
  }

  // ---------------------------------------------------------------- sums over a dictionary

  ghost function SumOver(keys: set<string>, f: string -> real): real {
    if keys == {} then 0.0
    else
      var k :| k in keys;
      f(k) + SumOver(keys - {k}, f)
  }

  /** The order of iteration does not matter. */
  lemma {:induction false} SumOverAny(keys: set<string>, f: string -> real, k: string)
    requires k in keys
    ensures SumOver(keys, f) == f(k) + SumOver(keys - {k}, f)
    decreases |keys|
  {
    var j :| j in keys && SumOver(keys, f) == f(j) + SumOver(keys - {j}, f);
    if j != k {
      SumOverAny(keys - {j}, f, k);
      SumOverAny(keys - {k}, f, j);
      assert keys - {j} - {k} == keys - {k} - {j};
    }
  }

  lemma {:induction false} SumOverEqual(keys: set<string>, f: string -> real, g: string -> real)
    requires forall k | k in keys :: f(k) == g(k)
    ensures SumOver(keys, f) == SumOver(keys, g)
    decreases |keys|
  {
    if keys != {} {
      var k :| k in keys;
      SumOverAny(keys, f, k);
      SumOverAny(keys, g, k);
      SumOverEqual(keys - {k}, f, g);
    }
  }

  /** Keys whose term is zero may be left out. */
  lemma {:induction false} SumOverSubset(some: set<string>, all: set<string>, f: string -> real)
    requires some <= all && forall k | k in all - some :: f(k) == 0.0
    ensures SumOver(some, f) == SumOver(all, f)
    decreases |all - some|
  {
    if all <= some {
      assert some == all;
    } else {
      var k :| k in all && k !in some;
      SumOverAny(all, f, k);
      assert all - {k} - some == (all - some) - {k};
      SumOverSubset(some, all - {k}, f);
    }
  }

  lemma {:induction false} SumOverNonNegative(keys: set<string>, f: string -> real)
    requires forall k | k in keys :: f(k) >= 0.0
    ensures SumOver(keys, f) >= 0.0
    ensures SumOver(keys, f) == 0.0 <==> forall k | k in keys :: f(k) == 0.0
    decreases |keys|
  {
    if keys != {} {
      var k :| k in keys;
      SumOverAny(keys, f, k);
      SumOverNonNegative(keys - {k}, f);
      assert keys == keys - {k} + {k};
    }
  }

  // ---------------------------------------------------------------- vectors

  function Get(v: Vector, k: string): real {
    if k in v then v[k] else 0.0
  }

  function Products(a: Vector, b: Vector): string -> real {
    k => Times(Get(a, k), Get(b, k))
  }

  /** What the code sums: the smaller side's items against the larger side. */
  ghost function SparseDot(a: Vector, b: Vector): real {
    var small, large := if |a| <= |b| then a else b, if |a| <= |b| then b else a;
    SumOver(small.Keys, Products(small, large))
  }

  /** The dot product over every coordinate either vector has. */
  ghost function FullDot(a: Vector, b: Vector): real {
    SumOver(a.Keys + b.Keys, Products(a, b))
  }

  lemma ProductsCommute(a: Vector, b: Vector, keys: set<string>)
    ensures SumOver(keys, Products(a, b)) == SumOver(keys, Products(b, a))
  {
    forall k | k in keys ensures Products(a, b)(k) == Products(b, a)(k) {
      assert Times(Get(a, k), Get(b, k)) == Times(Get(b, k), Get(a, k));
    }
    SumOverEqual(keys, Products(a, b), Products(b, a));
  }

  /** Iterating the smaller side loses nothing. */
  lemma SparseDotIsFull(a: Vector, b: Vector)
    ensures SparseDot(a, b) == FullDot(a, b)
  {
    var all := a.Keys + b.Keys;
    assert forall k | k in all - a.Keys :: Products(a, b)(k) == 0.0;
    assert forall k | k in all - b.Keys :: Products(b, a)(k) == 0.0;
    if |a| <= |b| {
      SumOverSubset(a.Keys, all, Products(a, b));
    } else {
      SumOverSubset(b.Keys, all, Products(b, a));
      ProductsCommute(a, b, all);
    }
  }

  lemma FullDotSymmetric(a: Vector, b: Vector)
    ensures FullDot(a, b) == FullDot(b, a)
  {
    assert a.Keys + b.Keys == b.Keys + a.Keys;
    ProductsCommute(a, b, a.Keys + b.Keys);
  }

  ghost function SquareSum(a: Vector): real {
    SumOver(a.Keys, Products(a, a))
  }

  ghost function Cosine(sqrt: real -> real, a: Vector, b: Vector): real {
    if a == map[] || b == map[] then 0.0
    else
      var normA, normB := sqrt(SquareSum(a)), sqrt(SquareSum(b));
      if normA == 0.0 || normB == 0.0 then 0.0 else SparseDot(a, b) / (normA * normB)
  }

  // ---------------------------------------------------------------- Cauchy-Schwarz over dictionaries

  function Values(v: Vector, keys: seq<string>): (xs: seq<real>)
    ensures |xs| == |keys| && forall i | 0 <= i < |keys| :: xs[i] == Get(v, keys[i])
  {
    seq(|keys|, i requires 0 <= i < |keys| => Get(v, keys[i]))
  }

  /** `list` holds every key once. */
  ghost predicate Lists(list: seq<string>, keys: set<string>) {
    && (forall k :: k in list <==> k in keys)
    && (forall i, j | 0 <= i < j < |list| :: list[i] != list[j])
  }

  lemma {:induction false} Listing(keys: set<string>) returns (list: seq<string>)
    ensures Lists(list, keys)
    decreases |keys|
  {
    list := [];
    if keys != {} {
      var k :| k in keys;
      var rest := Listing(keys - {k});
      list := rest + [k];
    }
  }

  lemma DotSnoc(xs: seq<real>, ys: seq<real>, x: real, y: real)
    requires |xs| == |ys|
    ensures C.Dot(xs + [x], ys + [y]) == C.Dot(xs, ys) + Times(x, y)
  {
    assert (xs + [x])[..|xs|] == xs && (ys + [y])[..|ys|] == ys;
  }

  lemma ListsInit(list: seq<string>, keys: set<string>)
    requires Lists(list, keys) && list != []
    ensures list[|list| - 1] in keys && Lists(list[..|list| - 1], keys - {list[|list| - 1]})
  {
    var n := |list| - 1;
    assert list == list[..n] + [list[n]];
  }

  lemma ValuesSnoc(v: Vector, list: seq<string>)
    requires list != []
    ensures Values(v, list) == Values(v, list[..|list| - 1]) + [Get(v, list[|list| - 1])]
  {
  }

  /** A sum of products over a dictionary is a dot product of sequences. */
  lemma {:induction false} ListedDot(list: seq<string>, keys: set<string>, a: Vector, b: Vector)
    requires Lists(list, keys)
    ensures SumOver(keys, Products(a, b)) == C.Dot(Values(a, list), Values(b, list))
    decreases |list|
  {
    if list == [] {
      assert keys == {};
    } else {
      var n := |list| - 1;
      var init, k := list[..n], list[n];
      ListsInit(list, keys);
      ListedDot(init, keys - {k}, a, b);
      SumOverAny(keys, Products(a, b), k);
      ValuesSnoc(a, list);
      ValuesSnoc(b, list);
      DotSnoc(Values(a, init), Values(b, init), Get(a, k), Get(b, k));
    }
  }

  lemma FullDotBounded(a: Vector, b: Vector)
    ensures C.BoundedBy(FullDot(a, b), SquareSum(a), SquareSum(b))
  {
    var all := a.Keys + b.Keys;
    var list := Listing(all);
    ListedDot(list, all, a, b);
    ListedDot(list, all, a, a);
    ListedDot(list, all, b, b);
    C.CauchySchwarz(Values(a, list), Values(b, list));
    SumOverSubset(a.Keys, all, Products(a, a));
    SumOverSubset(b.Keys, all, Products(b, b));
  }

  // ---------------------------------------------------------------- cosine

  lemma CosineSymmetric(sqrt: real -> real, a: Vector, b: Vector)
    ensures Cosine(sqrt, a, b) == Cosine(sqrt, b, a)
  {
    SparseDotIsFull(a, b);
    SparseDotIsFull(b, a);
    FullDotSymmetric(a, b);
    var p, q := sqrt(SquareSum(a)), sqrt(SquareSum(b));
    assert p * q == q * p;
  }

  ghost predicate Positive(v: Vector) {
    forall k | k in v :: v[k] > 0.0
  }

  lemma SquareTerm(v: Vector, k: string)
    requires k in v && v[k] > 0.0
    ensures Products(v, v)(k) > 0.0
  {
    TimesSign(Get(v, k), Get(v, k));
  }

  lemma PositiveSquareSum(v: Vector)
    requires Positive(v) && v != map[]
    ensures SquareSum(v) > 0.0
  {
    var k :| k in v;
    forall j | j in v.Keys ensures Products(v, v)(j) > 0.0 {
      SquareTerm(v, j);
    }
    SumOverNonNegative(v.Keys, Products(v, v));
    assert Products(v, v)(k) != 0.0;
  }

  lemma PositiveDot(a: Vector, b: Vector)
    requires Positive(a) && Positive(b)
    ensures FullDot(a, b) >= 0.0
    ensures FullDot(a, b) == 0.0 <==> a.Keys !! b.Keys
  {
    var all := a.Keys + b.Keys;
    forall k | k in all
      ensures Products(a, b)(k) >= 0.0
      ensures Products(a, b)(k) == 0.0 <==> k !in a || k !in b
    {
      TimesSign(Get(a, k), Get(b, k));
    }
    SumOverNonNegative(all, Products(a, b));
    if !(a.Keys !! b.Keys) {
      var k :| k in a.Keys && k in b.Keys;
      assert k in all && Products(a, b)(k) != 0.0;
    }
  }

  /** dot / (p q) for p^2 = a, q^2 = b and dot^2 <= a b */
  lemma CosineRatio(dot: real, a: real, b: real, p: real, q: real)
    requires p > 0.0 && q > 0.0 && p * p == a && q * q == b
    requires dot >= 0.0 && C.BoundedBy(dot, a, b)
    ensures p * q > 0.0 && 0.0 <= dot / (p * q) <= 1.0
    ensures dot / (p * q) == 0.0 <==> dot == 0.0
  {
    PositiveProduct(p, q);
    assert (p * q) * (p * q) == (p * p) * (q * q);
    SquaresOrdered(dot, p * q);
    DivideLe(dot, 0.0, p * q);
    DivideLe(dot, 1.0, p * q);
  }

  lemma PositiveRoot(sqrt: real -> real, v: Vector)
    requires C.IsSqrt(sqrt) && Positive(v) && v != map[]
    ensures sqrt(SquareSum(v)) > 0.0 && sqrt(SquareSum(v)) * sqrt(SquareSum(v)) == SquareSum(v)
  {
    PositiveSquareSum(v);
    C.RootZero(sqrt, SquareSum(v));
  }

  lemma CosineOfDot(sqrt: real -> real, a: Vector, b: Vector, dot: real, p: real, q: real)
    requires a != map[] && b != map[] && dot == FullDot(a, b) >= 0.0
    requires p == sqrt(SquareSum(a)) > 0.0 && p * p == SquareSum(a)
    requires q == sqrt(SquareSum(b)) > 0.0 && q * q == SquareSum(b)
    requires C.BoundedBy(dot, SquareSum(a), SquareSum(b))
    ensures 0.0 <= Cosine(sqrt, a, b) <= 1.0
    ensures Cosine(sqrt, a, b) == 0.0 <==> dot == 0.0
  {
    SparseDotIsFull(a, b);
    assert Cosine(sqrt, a, b) == dot / (p * q);
    CosineRatio(dot, SquareSum(a), SquareSum(b), p, q);
  }

  lemma EmptyVectorShares(a: Vector, b: Vector)
    requires a == map[] || b == map[]
    ensures a.Keys !! b.Keys
  {
  }

  /** Between positive vectors the cosine lies in [0, 1], and is 0 exactly when they share no
      coordinate. */
  lemma CosineInRange(sqrt: real -> real, a: Vector, b: Vector)
    requires C.IsSqrt(sqrt) && Positive(a) && Positive(b)
    ensures 0.0 <= Cosine(sqrt, a, b) <= 1.0
    ensures Cosine(sqrt, a, b) == 0.0 <==> a.Keys !! b.Keys
  {
    if a == map[] || b == map[] {
      EmptyVectorShares(a, b);
    } else {
      PositiveRoot(sqrt, a);
      PositiveRoot(sqrt, b);
      FullDotBounded(a, b);
      PositiveDot(a, b);
      CosineOfDot(sqrt, a, b, FullDot(a, b), sqrt(SquareSum(a)), sqrt(SquareSum(b)));
    }
  }

  lemma CosineWithSelf(sqrt: real -> real, a: Vector)
    requires C.IsSqrt(sqrt) && Positive(a) && a != map[]
    ensures Cosine(sqrt, a, a) == 1.0
  {
    PositiveSquareSum(a);
    var s := SquareSum(a);
    C.RootZero(sqrt, s);
    assert SparseDot(a, a) == s;
    assert sqrt(s) * sqrt(s) == s;
    DivideLe(s, 1.0, s);
  }

  // ---------------------------------------------------------------- weights

  type Documents = map<string, seq<string>>

  /** The number of documents containing a token. */
  function Containing(docs: Documents, token: string): nat {
    |set d | d in docs && token in docs[d]|
  }

  function Vocabulary(docs: Documents): set<string> {
    set d, i | d in docs && 0 <= i < |docs[d]| :: docs[d][i]
  }

  function InverseFrequency(ln: real -> real, docs: Documents): Vector {
    map token | token in Vocabulary(docs) ::
      ln((|docs| + 1) as real / (Containing(docs, token) + 1) as real) + 1.0
  }

  function Occurrences(tokens: seq<string>, token: string): nat {
    multiset(tokens)[token]
  }

  function TfidfVector(ln: real -> real, tokens: seq<string>, idf: Vector): Vector {
    map token | token in tokens && token in idf :: (1.0 + ln(Occurrences(tokens, token) as real)) * idf[token]
  }

  ghost function RankTfidf(sqrt: real -> real, ln: real -> real, queryTokens: seq<string>, docs: Documents): Vector {
    if docs == map[] then map[]
    else
      var idf := InverseFrequency(ln, docs);
      var query := TfidfVector(ln, queryTokens, idf);
      if query == map[] then map d | d in docs :: 0.0
      else map d | d in docs :: Cosine(sqrt, query, TfidfVector(ln, docs[d], idf))
  }

  lemma SmoothedIdfAtLeastOne(ln: real -> real, docs: Documents)
    requires IsLn(ln)
    ensures forall token | token in InverseFrequency(ln, docs) :: InverseFrequency(ln, docs)[token] >= 1.0
  {
    forall token | token in InverseFrequency(ln, docs) ensures InverseFrequency(ln, docs)[token] >= 1.0 {
      var some := set d | d in docs && token in docs[d];
      assert some <= docs.Keys;
      SubsetSmaller(some, docs.Keys);
      DivideLe((|docs| + 1) as real, 1.0, (Containing(docs, token) + 1) as real);
      assert ln(1.0) <= ln((|docs| + 1) as real / (Containing(docs, token) + 1) as real);
    }
  }

  lemma SubsetSmaller(a: set<string>, b: set<string>)
    requires a <= b
    ensures |a| <= |b|
  {
    assert b == a + (b - a);
  }

  lemma VectorPositive(ln: real -> real, tokens: seq<string>, idf: Vector)
    requires IsLn(ln) && forall token | token in idf :: idf[token] >= 1.0
    ensures Positive(TfidfVector(ln, tokens, idf))
    ensures forall token | token in TfidfVector(ln, tokens, idf) :: TfidfVector(ln, tokens, idf)[token] >= 1.0
  {
    forall token | token in TfidfVector(ln, tokens, idf) ensures TfidfVector(ln, tokens, idf)[token] >= 1.0 {
      assert token in multiset(tokens);
      var n := Occurrences(tokens, token) as real;
      assert ln(1.0) <= ln(n);
      ScaleLe(1.0, 1.0 + ln(n), idf[token]);
    }
  }

  ghost predicate Share(query: seq<string>, tokens: seq<string>) {
    exists token :: token in query && token in tokens
  }

  lemma ScoreInRange(sqrt: real -> real, ln: real -> real, query: seq<string>, docs: Documents, d: string)
    requires C.IsSqrt(sqrt) && IsLn(ln) && d in docs
    ensures var idf := InverseFrequency(ln, docs);
            var score := Cosine(sqrt, TfidfVector(ln, query, idf), TfidfVector(ln, docs[d], idf));
            0.0 <= score <= 1.0 && (score == 0.0 <==> !Share(query, docs[d]))
  {
    var idf := InverseFrequency(ln, docs);
    SmoothedIdfAtLeastOne(ln, docs);
    VectorPositive(ln, query, idf);
    VectorPositive(ln, docs[d], idf);
    CosineInRange(sqrt, TfidfVector(ln, query, idf), TfidfVector(ln, docs[d], idf));
    SharedCoordinates(ln, query, docs, d);
  }

  /** Every score lies in [0, 1] and every document gets one; a document scores 0 exactly when
      it shares no token with the query. */
  lemma RankingInRange(sqrt: real -> real, ln: real -> real, query: seq<string>, docs: Documents)
    requires C.IsSqrt(sqrt) && IsLn(ln)
    ensures var ranks := RankTfidf(sqrt, ln, query, docs);
            && ranks.Keys == docs.Keys
            && forall d | d in docs ::
                 0.0 <= ranks[d] <= 1.0 && (ranks[d] == 0.0 <==> !Share(query, docs[d]))
  {
    var ranks := RankTfidf(sqrt, ln, query, docs);
    forall d | d in docs ensures 0.0 <= ranks[d] <= 1.0 && (ranks[d] == 0.0 <==> !Share(query, docs[d])) {
      ScoreInRange(sqrt, ln, query, docs, d);
    }
  }

  lemma SharedCoordinates(ln: real -> real, query: seq<string>, docs: Documents, d: string)
    requires d in docs
    ensures var idf := InverseFrequency(ln, docs);
            TfidfVector(ln, query, idf).Keys !! TfidfVector(ln, docs[d], idf).Keys <==> !Share(query, docs[d])
  {
    var idf := InverseFrequency(ln, docs);
    assert forall token | token in docs[d] :: token in idf;
    var q, v := TfidfVector(ln, query, idf), TfidfVector(ln, docs[d], idf);
    if token :| token in query && token in docs[d] {
      assert token in q.Keys && token in v.Keys;
    }
  }

  /** A posting that is word for word the query, in any order, scores 1. */
  lemma IdenticalScoresOne(sqrt: real -> real, ln: real -> real, query: seq<string>, docs: Documents, d: string)
    requires C.IsSqrt(sqrt) && IsLn(ln) && d in docs && query != [] && multiset(docs[d]) == multiset(query)
    ensures RankTfidf(sqrt, ln, query, docs)[d] == 1.0
  {
    var idf := InverseFrequency(ln, docs);
    var q := TfidfVector(ln, query, idf);
    SmoothedIdfAtLeastOne(ln, docs);
    VectorPositive(ln, query, idf);
    SameTokensSameVector(ln, query, docs[d], idf);
    assert query[0] in multiset(docs[d]);
    assert query[0] in q;
    CosineWithSelf(sqrt, q);
  }

  lemma SameTokensSameVector(ln: real -> real, xs: seq<string>, ys: seq<string>, idf: Vector)
    requires multiset(xs) == multiset(ys)
    ensures TfidfVector(ln, xs, idf) == TfidfVector(ln, ys, idf)
  {
    assert forall token :: token in xs <==> token in multiset(xs);
    assert forall token :: token in ys <==> token in multiset(ys);
    var a, b := TfidfVector(ln, xs, idf), TfidfVector(ln, ys, idf);
    assert a.Keys == b.Keys;
    forall token | token in a ensures a[token] == b[token] {
      assert Occurrences(xs, token) == Occurrences(ys, token);
    }
  }
}
