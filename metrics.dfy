/** The code-quality metrics: entropy, average code length, the Kraft sum and
    redundancy. Probabilities are exact reals, and `log2` is a parameter: a lemma
    that needs a property of it states that property as a precondition. */
module Metrics {
  import opened Wrappers
  import opened Sequences
  import opened Dicts
  import opened DataStructures
  import opened Trees
  import opened CodeGeneration

  /** Why a metric could not be computed: a symbol whose name has no integer
      after its first character (Python's `int(z[1:])` raising), or a symbol
      with no code. */
  datatype MetricError = InvalidSymbolName(symbol: string) | MissingCode(symbol: string)

  // ----- Symbol order: sorted(keys, key=lambda z: int(z[1:])) -----

  predicate IsDigit(c: char)
  {
    '0' <= c <= '9'
  }

  predicate AllDigits(s: string)
  {
    forall i :: 0 <= i < |s| ==> IsDigit(s[i])
  }

  /** The value of a string of decimal digits, read most significant first. */
  function DigitsValue(s: string): nat
    requires AllDigits(s)
  {
    if s == "" then 0 else 10 * DigitsValue(s[..|s| - 1]) + (s[|s| - 1] as int - '0' as int)
  }

  /** An optional sign followed by at least one digit. */
  predicate IsIntLiteral(t: string)
  {
    (t != "" && AllDigits(t)) || (|t| >= 2 && (t[0] == '+' || t[0] == '-') && AllDigits(t[1..]))
  }

  /** Python's `int(t)` on a string. */
  function ParseInt(t: string): (r: Option<int>)
    ensures r.Some? <==> IsIntLiteral(t)
    ensures t != "" && AllDigits(t) ==> r == Some(DigitsValue(t))
    ensures |t| >= 2 && t[0] == '+' && AllDigits(t[1..]) ==> r == Some(DigitsValue(t[1..]))
    ensures |t| >= 2 && t[0] == '-' && AllDigits(t[1..]) ==> r == Some(-(DigitsValue(t[1..]) as int))
  {
    if t != "" && (t[0] == '+' || t[0] == '-') then
      if |t| >= 2 && AllDigits(t[1..]) then
        var v: int := DigitsValue(t[1..]);
        Some(if t[0] == '-' then -v else v)
      else None
    else if t != "" && AllDigits(t) then Some(DigitsValue(t))
    else None
  }

  /** `int(z[1:])`: the number after a symbol's first character. */
  function SymbolIndex(z: string): (r: Option<int>)
    ensures r.Some? <==> z != "" && IsIntLiteral(z[1..])
    ensures r.Some? ==> |z| >= 2 && r == ParseInt(z[1..])
  {
    if z == "" then None else ParseInt(z[1..])
  }

  /** The decimal digits of `n`. */
  function Decimal(n: nat): (s: string)
    ensures s != "" && AllDigits(s)
  {
    if n < 10 then [('0' as int + n) as char]
    else Decimal(n / 10) + [('0' as int + n % 10) as char]
  }

  /** The name the console input gives the `n`-th symbol: "z" followed by `n`. */
  function SymbolName(n: nat): string
  {
    "z" + Decimal(n)
  }

  lemma {:induction false} DecimalValue(n: nat)
    ensures DigitsValue(Decimal(n)) == n
  {
    if n >= 10 {
      var s := Decimal(n);
      assert s[..|s| - 1] == Decimal(n / 10);
      DecimalValue(n / 10);
    }
  }

  /** Round trip: the sort key of the name of symbol `n` is `n`. */
  lemma SymbolIndexOfName(n: nat)
    ensures SymbolIndex(SymbolName(n)) == Some(n)
  {
    DecimalValue(n);
    assert SymbolName(n)[1..] == Decimal(n);
  }

  /** The sort key as a number (0 for a name without one; never used then). */
  function IndexKey(z: string): real
  {
    match SymbolIndex(z)
    case Some(v) => v as real
    case None => 0.0
  }

  /** The first key, in dictionary order, whose sort key cannot be computed. */
  function FirstInvalidSymbol(keys: seq<string>): (r: Option<string>)
    ensures r.None? <==> forall k :: k in keys ==> SymbolIndex(k).Some?
    ensures r.Some? ==> exists j :: 0 <= j < |keys| && keys[j] == r.value &&
                          SymbolIndex(keys[j]).None? &&
                          forall i :: 0 <= i < j ==> SymbolIndex(keys[i]).Some?
  {
    if keys == [] then None
    else if SymbolIndex(keys[0]).None? then Some(keys[0])
    else
      var r := FirstInvalidSymbol(keys[1..]);
      assert forall k :: k in keys ==> k == keys[0] || k in keys[1..];
      if r.Some? then
        ghost var j :| 0 <= j < |keys[1..]| && keys[1..][j] == r.value &&
                       SymbolIndex(keys[1..][j]).None? &&
                       forall i :: 0 <= i < j ==> SymbolIndex(keys[1..][i]).Some?;
        assert keys[j + 1] == r.value;
        r
      else r
  }

  /** The visiting order of the metric loops: the keys sorted stably by their
      number, or the error `sorted` raises. */
  function SortedSymbols(keys: seq<string>): (r: Result<seq<string>, MetricError>)
    ensures r.Failure? <==> FirstInvalidSymbol(keys).Some?
    ensures r.Failure? ==> r.error == InvalidSymbolName(FirstInvalidSymbol(keys).value)
    ensures r.Success? ==> multiset(r.value) == multiset(keys) && Ascending(r.value, IndexKey)
  {
    match FirstInvalidSymbol(keys)
    case Some(z) => Failure(InvalidSymbolName(z))
    case None =>
      SortByAscending(keys, IndexKey);
      Success(SortBy(keys, IndexKey))
  }

  /** Symbols with the same number keep their dictionary order. */
  lemma SortedSymbolsStable(keys: seq<string>, v: real)
    requires SortedSymbols(keys).Success?
    ensures FilterKey(SortedSymbols(keys).value, IndexKey, v) == FilterKey(keys, IndexKey, v)
  {
    SortByStable(keys, IndexKey, v);
  }

  /** Over reals, visiting the keys in any order gives the sum over the entries. */
  lemma SumInAnyOrder<V>(order: seq<string>, d: Dict<V>, g: (string, V) -> real)
    requires multiset(order) == multiset(KeysOf(d))
    ensures SumBy(order, LookupTerm(d, g)) == SumBy(d, EntryTerm(g))
  {
    SumByPermutation(order, KeysOf(d), LookupTerm(d, g));
    SumOverKeys(d, g);
  }

  /** The term of a key that is in the dictionary is `g` of its stored value. */
  lemma LookupTermAt<V>(d: Dict<V>, g: (string, V) -> real, k: string)
    requires k in KeysOf(d)
    ensures Get(d, k).Some? && LookupTerm(d, g)(k) == g(k, Get(d, k).value)
  {
  }

  // ----- Entropy -----

  /** One symbol's part of the sum: p * log2(p), and nothing for p <= 0. */
  function EntropyTerm(log2: real -> real): (string, real) -> real
  {
    (k: string, p: real) => if p > 0.0 then p * log2(p) else 0.0
  }

  lemma EntropyTermAt(log2: real -> real, k: string, p: real)
    ensures p > 0.0 ==> EntropyTerm(log2)(k, p) == p * log2(p)
    ensures p <= 0.0 ==> EntropyTerm(log2)(k, p) == 0.0
  {
  }

  /** One pass of the entropy loop adds the term of the next symbol. */
  lemma EntropyUpdate(probabilities: Dict<real>, log2: real -> real, symbols: seq<string>, i: nat,
                      before: real, prob: real)
    requires i < |symbols| && symbols[i] in KeysOf(probabilities)
    requires Get(probabilities, symbols[i]) == Some(prob)
    requires before == SumBy(symbols[..i], LookupTerm(probabilities, EntropyTerm(log2)))
    ensures (if prob > 0.0 then before + prob * log2(prob) else before) ==
            SumBy(symbols[..i + 1], LookupTerm(probabilities, EntropyTerm(log2)))
  {
    LookupTermAt(probabilities, EntropyTerm(log2), symbols[i]);
    SumBySnoc(symbols, i, LookupTerm(probabilities, EntropyTerm(log2)));
    EntropyTermAt(log2, symbols[i], prob);
  }

  /** H(Z) = -(sum of p * log2(p) over the symbols with p > 0). */
  function Entropy(probabilities: seq<(string, real)>, log2: real -> real): real
  {
    -SumBy(probabilities, EntryTerm(EntropyTerm(log2)))
  }

  /** `calculate_entropy` (the numeric result). */
  method CalculateEntropy(probabilities: Dict<real>, log2: real -> real)
    returns (r: Result<real, MetricError>)
    ensures r.Failure? <==> FirstInvalidSymbol(KeysOf(probabilities)).Some?
    ensures r.Failure? ==> r.error == InvalidSymbolName(FirstInvalidSymbol(KeysOf(probabilities)).value)
    ensures r.Success? ==> r.value == Entropy(probabilities, log2)
    ensures probabilities == [] ==> r == Success(0.0)
  {
    var order := SortedSymbols(KeysOf(probabilities));
    if order.Failure? {
      return Failure(order.error);
    }
    var symbols := order.value;
    ghost var term := LookupTerm(probabilities, EntropyTerm(log2));
    var entropy := 0.0;
    for i := 0 to |symbols|
      invariant entropy == SumBy(symbols[..i], term)
    {
      var symbol := symbols[i];
      PermutationMember(symbols, KeysOf(probabilities), i);
      var prob := Get(probabilities, symbol).value;
      EntropyUpdate(probabilities, log2, symbols, i, entropy, prob);
      if prob > 0.0 {
        entropy := entropy + prob * log2(prob);
      }
    }
    assert symbols[..|symbols|] == symbols;
    SumInAnyOrder(symbols, probabilities, EntropyTerm(log2));
    return Success(-entropy);
  }

  /** A symbol with probability <= 0 does not change the entropy. */
  lemma EntropyIgnoresNonPositive(probabilities: Dict<real>, log2: real -> real, symbol: string, p: real)
    requires symbol !in KeysOf(probabilities) && p <= 0.0
    ensures Entropy(Put(probabilities, symbol, p), log2) == Entropy(probabilities, log2)
  {
    SumByConcat(probabilities, [(symbol, p)], EntryTerm(EntropyTerm(log2)));
  }

  /** With a logarithm that is not positive on (0, 1], probabilities in [0, 1]
      have non-negative entropy. */
  lemma {:induction false} EntropyNonNegative(probabilities: seq<(string, real)>, log2: real -> real)
    requires forall p :: 0.0 < p <= 1.0 ==> log2(p) <= 0.0
    requires forall i :: 0 <= i < |probabilities| ==> probabilities[i].1 <= 1.0
    ensures Entropy(probabilities, log2) >= 0.0
  {
    if probabilities != [] {
      var p := probabilities[0].1;
      if p > 0.0 {
        assert log2(p) <= 0.0;
        assert p * log2(p) <= 0.0;
      }
      EntropyNonNegative(probabilities[1..], log2);
    }
  }

  // ----- Average code length -----

  /** One symbol's part of the sum: p * len(code), for a symbol that has a code. */
  function LengthTerm(codes: Dict<string>): (string, real) -> real
  {
    (k: string, p: real) => Weighted(p, Get(codes, k))
  }

  /** p * len(code) for a code that exists. */
  function Weighted(p: real, code: Option<string>): real
  {
    match code
    case Some(c) => p * (|c| as real)
    case None => 0.0
  }

  lemma LengthTermAt(codes: Dict<string>, k: string, p: real)
    ensures LengthTerm(codes)(k, p) == Weighted(p, Get(codes, k))
  {
  }

  lemma WeightedLength(p: real, code: Option<string>, n: nat)
    requires code.Some? && n == |code.value|
    ensures Weighted(p, code) == p * (n as real)
  {
  }

  /** One turn of the average-length loop adds the visited symbol's term. */
  lemma LengthStep(probabilities: Dict<real>, codes: Dict<string>, symbols: seq<string>, i: nat)
    requires i < |symbols| && symbols[i] in KeysOf(probabilities)
    ensures SumBy(symbols[..i + 1], LookupTerm(probabilities, LengthTerm(codes)))
         == SumBy(symbols[..i], LookupTerm(probabilities, LengthTerm(codes)))
            + LengthTerm(codes)(symbols[i], Get(probabilities, symbols[i]).value)
  {
    SumBySnoc(symbols, i, LookupTerm(probabilities, LengthTerm(codes)));
    LookupTermAt(probabilities, LengthTerm(codes), symbols[i]);
  }

  lemma LengthUpdate(probabilities: Dict<real>, codes: Dict<string>, symbols: seq<string>, i: nat,
                     before: real, prob: real, codeLength: nat)
    requires i < |symbols| && symbols[i] in KeysOf(probabilities)
    requires Get(probabilities, symbols[i]) == Some(prob)
    requires Get(codes, symbols[i]).Some? && codeLength == |Get(codes, symbols[i]).value|
    requires before == SumBy(symbols[..i], LookupTerm(probabilities, LengthTerm(codes)))
    ensures before + prob * (codeLength as real) == SumBy(symbols[..i + 1], LookupTerm(probabilities, LengthTerm(codes)))
  {
    LengthStep(probabilities, codes, symbols, i);
    LengthTermAt(codes, symbols[i], prob);
    WeightedLength(prob, Get(codes, symbols[i]), codeLength);
  }

  /** L_avg = sum of p(s) * len(codes[s]) over the symbols of the probability map. */
  function AverageLength(probabilities: seq<(string, real)>, codes: Dict<string>): real
  {
    SumBy(probabilities, EntryTerm(LengthTerm(codes)))
  }

  /** Every symbol of the probability map has a code. */
  ghost predicate AllCoded(probabilities: seq<(string, real)>, codes: Dict<string>)
  {
    forall i :: 0 <= i < |probabilities| ==> probabilities[i].0 in KeysOf(codes)
  }

  /** `symbol` is the first symbol of `order` that has no code. */
  ghost predicate FirstUncoded(order: seq<string>, codes: Dict<string>, symbol: string)
  {
    exists j :: 0 <= j < |order| && order[j] == symbol && order[j] !in KeysOf(codes) &&
                forall i :: 0 <= i < j ==> order[i] in KeysOf(codes)
  }

  /** `calculate_average_length` (the numeric result). A symbol without a code
      stops the loop with an error; entries of `codes` for other symbols are
      never looked at. */
  method CalculateAverageLength(probabilities: Dict<real>, codes: Dict<string>)
    returns (r: Result<real, MetricError>)
    ensures FirstInvalidSymbol(KeysOf(probabilities)).Some? ==>
              r == Failure(InvalidSymbolName(FirstInvalidSymbol(KeysOf(probabilities)).value))
    ensures FirstInvalidSymbol(KeysOf(probabilities)).None? ==>
              (r.Success? <==> AllCoded(probabilities, codes))
    ensures r.Success? ==> r.value == AverageLength(probabilities, codes)
    ensures FirstInvalidSymbol(KeysOf(probabilities)).None? && r.Failure? ==>
              r.error.MissingCode? &&
              FirstUncoded(SortedSymbols(KeysOf(probabilities)).value, codes, r.error.symbol)
    ensures probabilities == [] ==> r == Success(0.0)
  {
    var order := SortedSymbols(KeysOf(probabilities));
    if order.Failure? {
      return Failure(order.error);
    }
    var symbols := order.value;
    ghost var term := LookupTerm(probabilities, LengthTerm(codes));
    var avgLength := 0.0;
    for i := 0 to |symbols|
      invariant avgLength == SumBy(symbols[..i], term)
      invariant forall j :: 0 <= j < i ==> symbols[j] in KeysOf(codes)
    {
      var symbol := symbols[i];
      PermutationMember(symbols, KeysOf(probabilities), i);
      var prob := Get(probabilities, symbol).value;
      var code := Get(codes, symbol);
      if code.None? {
        CodeMissing(probabilities, codes, symbols, i);
        return Failure(MissingCode(symbol));
      }
      var codeLength := |code.value|;
      LengthUpdate(probabilities, codes, symbols, i, avgLength, prob, codeLength);
      avgLength := avgLength + prob * (codeLength as real);
    }
    assert symbols[..|symbols|] == symbols;
    CodesPresent(probabilities, codes, symbols);
    SumInAnyOrder(symbols, probabilities, LengthTerm(codes));
    return Success(avgLength);
  }

  /** A symbol visited without a code, after symbols that all had one. */
  lemma CodeMissing(probabilities: Dict<real>, codes: Dict<string>, symbols: seq<string>, i: nat)
    requires multiset(symbols) == multiset(KeysOf(probabilities))
    requires i < |symbols| && symbols[i] !in KeysOf(codes)
    requires forall j :: 0 <= j < i ==> symbols[j] in KeysOf(codes)
    ensures !AllCoded(probabilities, codes) && FirstUncoded(symbols, codes, symbols[i])
  {
    PermutationMember(symbols, KeysOf(probabilities), i);
  }

  /** When every visited symbol has a code, every symbol of the map has one. */
  lemma CodesPresent(probabilities: Dict<real>, codes: Dict<string>, symbols: seq<string>)
    requires multiset(symbols) == multiset(KeysOf(probabilities))
    requires forall j :: 0 <= j < |symbols| ==> symbols[j] in KeysOf(codes)
    ensures AllCoded(probabilities, codes)
  {
    forall i | 0 <= i < |probabilities| ensures probabilities[i].0 in KeysOf(codes) {
      var k := KeysOf(probabilities)[i];
      assert k in multiset(KeysOf(probabilities));
      assert k in multiset(symbols);
      var j :| 0 <= j < |symbols| && symbols[j] == k;
    }
  }

  lemma LengthTermCongruent(codes: Dict<string>, other: Dict<string>, k: string, p: real)
    requires Get(codes, k) == Get(other, k)
    ensures LengthTerm(codes)(k, p) == LengthTerm(other)(k, p)
  {
  }

  /** Entries of `codes` for symbols outside the probability map do not matter. */
  lemma AverageLengthIgnoresExtraCodes(probabilities: Dict<real>, codes: Dict<string>, symbol: string, code: string)
    requires symbol !in KeysOf(probabilities)
    ensures AverageLength(probabilities, Put(codes, symbol, code)) == AverageLength(probabilities, codes)
  {
    var updated := Put(codes, symbol, code);
    var f, g := EntryTerm(LengthTerm(updated)), EntryTerm(LengthTerm(codes));
    forall e | e in probabilities ensures f(e) == g(e) {
      var i :| 0 <= i < |probabilities| && probabilities[i] == e;
      assert e.0 == KeysOf(probabilities)[i];
      assert Get(updated, e.0) == Get(codes, e.0);
      LengthTermCongruent(updated, codes, e.0, e.1);
    }
    SumByCongruent(probabilities, f, g);
  }

  // ----- Kraft sum -----

  /** 2^(-n). */
  function HalfPow(n: nat): (r: real)
    ensures 0.0 < r <= 1.0
    ensures n >= 1 ==> r <= 0.5
  {
    if n == 0 then 1.0 else HalfPow(n - 1) / 2.0
  }

  /** One entry's part of the Kraft sum: 2^(-len(code)). */
  function KraftTerm(symbol: string, code: string): real
  {
    HalfPow(|code|)
  }

  /** K = sum of 2^(-len(code)) over every entry of the code table. */
  function KraftSum(codes: seq<(string, string)>): real
  {
    SumBy(codes, EntryTerm(KraftTerm))
  }

  /** `calculate_kraft_inequality` (the numeric result). */
  method CalculateKraftInequality(codes: Dict<string>) returns (r: Result<real, MetricError>)
    ensures r.Failure? <==> FirstInvalidSymbol(KeysOf(codes)).Some?
    ensures r.Failure? ==> r.error == InvalidSymbolName(FirstInvalidSymbol(KeysOf(codes)).value)
    ensures r.Success? ==> r.value == KraftSum(codes)
    ensures codes == [] ==> r == Success(0.0)
  {
    var order := SortedSymbols(KeysOf(codes));
    if order.Failure? {
      return Failure(order.error);
    }
    var symbols := order.value;
    ghost var term := LookupTerm(codes, KraftTerm);
    var kraftSum := 0.0;
    for i := 0 to |symbols|
      invariant kraftSum == SumBy(symbols[..i], term)
    {
      var symbol := symbols[i];
      assert symbol in multiset(KeysOf(codes));
      var code := Get(codes, symbol).value;
      LookupTermAt(codes, KraftTerm, symbol);
      kraftSum := kraftSum + HalfPow(|code|);
      SumBySnoc(symbols, i, term);
    }
    assert symbols[..|symbols|] == symbols;
    SumInAnyOrder(symbols, codes, KraftTerm);
    return Success(kraftSum);
  }

  /** Each term of the Kraft sum is positive, and at most 1/2 for a non-empty code. */
  lemma KraftTermBounds(symbol: string, code: string)
    ensures 0.0 < KraftTerm(symbol, code) <= 1.0
    ensures code != "" ==> KraftTerm(symbol, code) <= 0.5
  {
  }

  /** The codes below a node reached along `path` have Kraft sum 2^(-len(path))
      when every internal node has two children (a leaf needs a non-empty path,
      as the lone root leaf is given "0", not ""). */
  lemma {:induction false} KraftOfLeafCodes(n: Node, path: string)
    requires WellFormed(n) && (n.symbol.None? || path != "")
    ensures KraftSum(LeafCodes(n, path)) == HalfPow(|path|)
  {
    if n.symbol.None? {
      var l, r := n.leftChild.value, n.rightChild.value;
      assert LeafCodes(n, path) == LeafCodes(l, path + "0") + LeafCodes(r, path + "1");
      assert |path + "0"| == |path + "1"| == |path| + 1;
      assert HalfPow(|path| + 1) == HalfPow(|path|) / 2.0;
      KraftOfLeafCodes(l, path + "0");
      KraftOfLeafCodes(r, path + "1");
      SumByConcat(LeafCodes(l, path + "0"), LeafCodes(r, path + "1"), EntryTerm(KraftTerm));
    } else {
      var t := LeafCodes(n, path);
      assert t == [(n.symbol.value, path)];
      assert KraftSum(t) == EntryTerm(KraftTerm)(t[0]) + KraftSum(t[1..]);
    }
  }

  /** The table `generate_codes_from_tree` builds for a tree with two children at
      every internal node has Kraft sum exactly 1, or 1/2 for a lone leaf; the
      test K <= 1 applied to it therefore always passes. */
  lemma TreeCodesKraft(root: Node)
    requires WellFormed(root) && UniqueSymbols(root)
    ensures KraftSum(Emit([], Some(root), "")) == if root.symbol.Some? then 0.5 else 1.0
    ensures KraftSum(Emit([], Some(root), "")) <= 1.0
  {
    TableFromTree(root);
    if root.symbol.None? {
      KraftOfLeafCodes(root, "");
    } else {
      var t := LeafCodes(root, "");
      assert t == [(root.symbol.value, "0")];
      assert EntryTerm(KraftTerm)(t[0]) == HalfPow(1) == 0.5;
      assert KraftSum(t) == EntryTerm(KraftTerm)(t[0]) + KraftSum(t[1..]);
    }
  }

  /** For the tree either builder returns (well formed, its leaves a reordering
      of the input entries), the generated table is a prefix-free code table
      with a code for every input symbol, so the average length can always be
      computed, and K <= 1 holds, with equality once there are two symbols. */
  lemma BuiltTreeCodes(probabilities: Dict<real>, root: Node)
    requires WellFormed(root) && multiset(Leaves(root)) == multiset(probabilities)
    ensures UniqueSymbols(root)
    ensures IsCodeTableOf(Emit([], Some(root), ""), root)
    ensures AllCoded(probabilities, Emit([], Some(root), ""))
    ensures |Emit([], Some(root), "")| == |probabilities|
    ensures KraftSum(Emit([], Some(root), "")) <= 1.0
    ensures |probabilities| >= 2 ==> KraftSum(Emit([], Some(root), "")) == 1.0
  {
    DistinctKeysPermutation(probabilities, Leaves(root));
    TableFromTree(root);
    TreeCodesKraft(root);
    var codes := Emit([], Some(root), "");
    forall i | 0 <= i < |probabilities| ensures probabilities[i].0 in KeysOf(codes) {
      PermutationMember(probabilities, Leaves(root), i);
      var k :| 0 <= k < |Leaves(root)| && Leaves(root)[k] == probabilities[i];
      assert KeysOf(codes)[k] == probabilities[i].0;
    }
    assert |Leaves(root)| == |probabilities| by {
      assert |multiset(Leaves(root))| == |multiset(probabilities)|;
    }
  }

  // ----- Redundancy -----

  /** `calculate_redundancy` (the numeric result): r = L_avg - H. */
  function CalculateRedundancy(avgLength: real, entropy: real): (r: real)
    ensures entropy + r == avgLength
  {
    avgLength - entropy
  }

  /** One symbol's part of the redundancy: p * (len(code) + log2(p)). */
  function ExcessTerm(codes: Dict<string>, log2: real -> real): (string, real) -> real
  {
    (k: string, p: real) =>
      match Get(codes, k)
      case Some(c) => if p > 0.0 then p * ((|c| as real) + log2(p)) else 0.0
      case None => 0.0
  }

  lemma ExcessTermAt(codes: Dict<string>, log2: real -> real, k: string, p: real)
    requires Get(codes, k).Some? && p >= 0.0
    ensures ExcessTerm(codes, log2)(k, p) == LengthTerm(codes)(k, p) + EntropyTerm(log2)(k, p)
  {
    LengthTermAt(codes, k, p);
    EntropyTermAt(log2, k, p);
    if p == 0.0 {
      assert p * (|Get(codes, k).value| as real) == 0.0;
    }
  }

  /** For non-negative probabilities, the redundancy is the sum over the symbols
      of p * (len(code) + log2(p)): each symbol's code length in excess of its
      information content, weighted by its probability. */
  lemma {:induction false} RedundancyIsExcess(probabilities: seq<(string, real)>, codes: Dict<string>, log2: real -> real)
    requires forall i :: 0 <= i < |probabilities| ==> probabilities[i].1 >= 0.0
    requires forall i :: 0 <= i < |probabilities| ==> probabilities[i].0 in KeysOf(codes)
    ensures CalculateRedundancy(AverageLength(probabilities, codes), Entropy(probabilities, log2))
         == SumBy(probabilities, EntryTerm(ExcessTerm(codes, log2)))
  {
    if probabilities != [] {
      var (k, p) := probabilities[0];
      assert k in KeysOf(codes);
      ExcessTermAt(codes, log2, k, p);
      assert p >= 0.0;
      RedundancyIsExcess(probabilities[1..], codes, log2);
    }
  }
}
