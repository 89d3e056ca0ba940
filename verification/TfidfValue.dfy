/** The value of a TF-IDF score: of each weight, of the dot product, and of the cosine. */
module TfidfValue {
  import opened RealArith
  import opened Tfidf

  /** The law of the logarithm. */
  ghost predicate IsLogarithm(ln: real -> real) {
    forall x: real, y: real | x > 0.0 && y > 0.0 :: ln(Times(x, y)) == ln(x) + ln(y)
  }

  ghost predicate StrictlyIncreasing(ln: real -> real) {
    forall x: real, y: real | 0.0 < x < y :: ln(x) < ln(y)
  }

  // ---------------------------------------------------------------- the weight of a token

  /** The documents that contain a token. */
  function Containers(docs: Documents, token: string): set<string> {
    set d | d in docs && token in docs[d]
  }

  lemma PositiveQuotient(n: real, d: real)
    requires n > 0.0 && d > 0.0
    ensures n / d > 0.0 && Times(n / d, d) == n
  {
    DivideLe(n, 0.0, d);
  }

  /** Exactly the tokens of some document have a weight, and that of a token in c of n documents is
      ln(n + 1) - ln(c + 1) + 1. */
  lemma WeightExactly(ln: real -> real, docs: Documents, token: string)
    requires IsLogarithm(ln)
    ensures var idf := InverseFrequency(ln, docs);
            && (token in idf <==> exists d :: d in docs && token in docs[d])
            && (token in idf ==> idf[token] == ln((|docs| + 1) as real) - ln((|Containers(docs, token)| + 1) as real) + 1.0)
  {
    var idf := InverseFrequency(ln, docs);
    if d :| d in docs && token in docs[d] {
      var i :| 0 <= i < |docs[d]| && docs[d][i] == token;
      assert docs[d][i] in Vocabulary(docs);
    }
    var n, c := (|docs| + 1) as real, (|Containers(docs, token)| + 1) as real;
    PositiveQuotient(n, c);
    assert ln(Times(n / c, c)) == ln(n / c) + ln(c);
    assert Containing(docs, token) == |Containers(docs, token)|;
  }

  /** A token in every document weighs 1; the rarer of two weighs more. */
  lemma RarerWeighsMore(ln: real -> real, docs: Documents, a: string, b: string)
    requires IsLogarithm(ln) && StrictlyIncreasing(ln)
    requires a in InverseFrequency(ln, docs) && b in InverseFrequency(ln, docs)
    ensures var idf := InverseFrequency(ln, docs);
            && (Containers(docs, a) == docs.Keys ==> idf[a] == 1.0)
            && (|Containers(docs, a)| < |Containers(docs, b)| <==> idf[a] > idf[b])
  {
    WeightExactly(ln, docs, a);
    WeightExactly(ln, docs, b);
    Orders(ln, |Containers(docs, a)|, |Containers(docs, b)|);
    assert |docs| == |docs.Keys|;
  }

  lemma Orders(ln: real -> real, c: nat, e: nat)
    requires StrictlyIncreasing(ln)
    ensures c < e <==> ln((c + 1) as real) < ln((e + 1) as real)
  {
    var x, y := (c + 1) as real, (e + 1) as real;
    if c < e {
      assert ln(x) < ln(y);
    } else if e < c {
      assert ln(y) < ln(x);
    }
  }

  // ---------------------------------------------------------------- the coordinates of a vector

  /** The places where a token stands. */
  function PlacesOf(tokens: seq<string>, token: string): set<int> {
    set i | 0 <= i < |tokens| && tokens[i] == token
  }

  lemma {:induction false} OccurrencesArePlaces(tokens: seq<string>, token: string)
    ensures Occurrences(tokens, token) == |PlacesOf(tokens, token)|
    decreases |tokens|
  {
    if tokens == [] {
      assert PlacesOf(tokens, token) == {};
    } else {
      var n := |tokens| - 1;
      var init := tokens[..n];
      OccurrencesArePlaces(init, token);
      assert tokens == init + [tokens[n]];
      assert PlacesOf(tokens, token) == PlacesOf(init, token) + if tokens[n] == token then {n} else {};
    }
  }

  /** A text's vector has exactly its tokens that have a weight; one that stands in n places counts
      its weight once and ln n times more. */
  lemma CoordinateExactly(ln: real -> real, tokens: seq<string>, idf: Vector, token: string)
    ensures var v := TfidfVector(ln, tokens, idf);
            && (token in v <==> token in tokens && token in idf)
            && (token in v ==> v[token] == idf[token] + Times(ln(|PlacesOf(tokens, token)| as real), idf[token]))
  {
    OccurrencesArePlaces(tokens, token);
    if token in tokens && token in idf {
      OnceAndMore(ln(Occurrences(tokens, token) as real), idf[token]);
    }
  }

  lemma OnceAndMore(l: real, w: real)
    ensures (1.0 + l) * w == w + Times(l, w)
  {
  }

  // ---------------------------------------------------------------- the dot product and the cosine

  /** Nothing gives nothing; a coordinate both vectors gain adds the product of its two values, and
      one that only the first gains adds nothing. */
  lemma DotGrows(a: Vector, b: Vector, k: string, x: real, y: real)
    requires k !in a && k !in b
    ensures FullDot(map[], map[]) == 0.0
    ensures FullDot(a[k := x], b[k := y]) == FullDot(a, b) + Times(x, y)
    ensures FullDot(a[k := x], b) == FullDot(a, b)
  {
    var a', b' := a[k := x], b[k := y];
    var all := a.Keys + b.Keys;
    assert a'.Keys + b'.Keys == all + {k} && a'.Keys + b.Keys == all + {k};
    assert all + {k} - {k} == all;
    SumOverAny(all + {k}, Products(a', b'), k);
    SumOverEqual(all, Products(a', b'), Products(a, b));
    SumOverAny(all + {k}, Products(a', b), k);
    SumOverEqual(all, Products(a', b), Products(a, b));
  }

  lemma CosineProduct(dot: real, p: real, q: real)
    requires p > 0.0 && q > 0.0
    ensures p * q != 0.0 && Times(dot / (p * q), Times(p, q)) == dot
  {
    PositiveProduct(p, q);
    PositiveProductQuotient(dot, p * q);
  }

  lemma PositiveProductQuotient(n: real, d: real)
    requires d > 0.0
    ensures Times(n / d, d) == n
  {
  }

  /** The cosine, times the two lengths, is the dot product; a vector without coordinates scores 0. */
  lemma CosineExactly(sqrt: real -> real, a: Vector, b: Vector)
    requires C.IsSqrt(sqrt) && Positive(a) && Positive(b)
    ensures a == map[] || b == map[] ==> Cosine(sqrt, a, b) == 0.0
    ensures a != map[] && b != map[] ==>
              Times(Cosine(sqrt, a, b), Times(sqrt(FullDot(a, a)), sqrt(FullDot(b, b)))) == FullDot(a, b)
  {
    if a != map[] && b != map[] {
      PositiveRoot(sqrt, a);
      PositiveRoot(sqrt, b);
      SquareSumIsDot(a);
      SquareSumIsDot(b);
      CosineWith(sqrt, a, b, FullDot(a, b), sqrt(FullDot(a, a)), sqrt(FullDot(b, b)));
    }
  }

  lemma CosineWith(sqrt: real -> real, a: Vector, b: Vector, dot: real, p: real, q: real)
    requires a != map[] && b != map[] && dot == FullDot(a, b)
    requires p == sqrt(SquareSum(a)) > 0.0 && q == sqrt(SquareSum(b)) > 0.0
    ensures Times(Cosine(sqrt, a, b), Times(p, q)) == dot
  {
    CosineAsQuotient(sqrt, a, b, dot, p, q);
    CosineProduct(dot, p, q);
  }

  lemma SquareSumIsDot(v: Vector)
    ensures SquareSum(v) == FullDot(v, v)
  {
    assert v.Keys + v.Keys == v.Keys;
  }

  lemma CosineAsQuotient(sqrt: real -> real, a: Vector, b: Vector, dot: real, p: real, q: real)
    requires a != map[] && b != map[] && dot == FullDot(a, b)
    requires p == sqrt(SquareSum(a)) > 0.0 && q == sqrt(SquareSum(b)) > 0.0
    ensures Cosine(sqrt, a, b) == dot / (p * q)
  {
    SparseDotIsFull(a, b);
  }

  /** The ranking is the cosine of the query's vector with each document's; without a query token
      that any document has, every document scores 0. */
  lemma RankingExactly(sqrt: real -> real, ln: real -> real, query: seq<string>, docs: Documents, d: string)
    requires d in docs
    ensures var idf := InverseFrequency(ln, docs);
            && d in RankTfidf(sqrt, ln, query, docs)
            && RankTfidf(sqrt, ln, query, docs)[d]
               == Cosine(sqrt, TfidfVector(ln, query, idf), TfidfVector(ln, docs[d], idf))
  {
  }
}
