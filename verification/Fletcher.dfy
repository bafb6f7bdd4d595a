/** The cumulative Fletcher-4 checksum with wrapping 64-bit sums (src/stream.rs, `Fletcher4`). */
module Fletcher {
  import opened Bytes

  const WRAP: int := 0x1_0000_0000_0000_0000

  datatype Sums = Sums(a: U64, b: U64, c: U64, d: U64)

  const ZERO: Sums := Sums(0, 0, 0, 0)

  // ---------- Specification: folding words ----------

  function Words(bytes: seq<Byte>): (w: seq<U32>)
    requires |bytes| % 4 == 0
    ensures |w| == |bytes| / 4
  {
    seq<U32>(|bytes| / 4, i requires 0 <= i < |bytes| / 4 => Le32(bytes[4 * i..4 * i + 4]))
  }

  function Step(s: Sums, word: U32): Sums {
    var a := (s.a + word) % WRAP;
    var b := (s.b + a) % WRAP;
    var c := (s.c + b) % WRAP;
    Sums(a, b, c, (s.d + c) % WRAP)
  }

  function Fold(s: Sums, words: seq<U32>): Sums
    decreases |words|
  {
    if words == [] then s else Step(Fold(s, words[..|words| - 1]), words[|words| - 1])
  }

  /** The checksum of a byte string in one pass. */
  function Checksum(bytes: seq<Byte>): Sums
    requires |bytes| % 4 == 0
  {
    Fold(ZERO, Words(bytes))
  }

  // ---------- Incremental updates ----------

  lemma {:induction false} FoldAppend(s: Sums, xs: seq<U32>, ys: seq<U32>)
    ensures Fold(s, xs + ys) == Fold(Fold(s, xs), ys)
    decreases |ys|
  {
    if ys == [] {
      assert xs + ys == xs;
    } else {
      var n := |ys| - 1;
      assert (xs + ys)[..|xs| + n] == xs + ys[..n];
      FoldAppend(s, xs, ys[..n]);
    }
  }

  lemma FoldWord(s: Sums, words: seq<U32>, k: nat)
    requires k < |words|
    ensures Fold(s, words[..k + 1]) == Step(Fold(s, words[..k]), words[k])
  {
    assert words[..k + 1][..k] == words[..k];
  }

  lemma TailSlice(x: seq<Byte>, y: seq<Byte>, a: nat, n: nat)
    requires a + n <= |y|
    ensures (x + y)[|x| + a..|x| + a + n] == y[a..a + n]
  {
  }

  lemma WordsAppend(x: seq<Byte>, y: seq<Byte>)
    requires |x| % 4 == 0 && |y| % 4 == 0
    ensures |x + y| % 4 == 0 && Words(x + y) == Words(x) + Words(y)
  {
    assert |x + y| == 4 * (|x| / 4 + |y| / 4);
    forall i | 0 <= i < |Words(x + y)|
      ensures Words(x + y)[i] == (Words(x) + Words(y))[i]
    {
      var j := i - |x| / 4;
      if i < |x| / 4 {
        assert (x + y)[4 * i..4 * i + 4] == x[4 * i..4 * i + 4];
      } else {
        TailSlice(x, y, 4 * j, 4);
        assert 4 * i == |x| + 4 * j;
      }
    }
  }

  /** Updating piece by piece over any four-byte-aligned split gives the one-pass checksum. */
  lemma SplitUpdate(x: seq<Byte>, y: seq<Byte>)
    requires |x| % 4 == 0 && |y| % 4 == 0
    ensures |x + y| % 4 == 0 && Checksum(x + y) == Fold(Checksum(x), Words(y))
  {
    WordsAppend(x, y);
    FoldAppend(ZERO, Words(x), Words(y));
  }

  // ---------- Closed form ----------

  function Binomial(n: nat, k: nat): nat {
    if k == 0 then 1 else if n == 0 then 0 else Binomial(n - 1, k - 1) + Binomial(n - 1, k)
  }

  /** The unbounded sum in which the word followed by m others weighs Binomial(m + order, order). */
  function Weighted(words: seq<U32>, order: nat): nat {
    if words == [] then 0
    else Binomial(|words| - 1 + order, order) * words[0] + Weighted(words[1..], order)
  }

  lemma {:induction false} BinomialDiagonal(n: nat)
    ensures Binomial(n, n) == 1 && forall k :: k > n ==> Binomial(n, k) == 0
  {
    if n > 0 {
      BinomialDiagonal(n - 1);
    }
  }

  lemma Pascal(n: nat, order: nat, word: U32)
    requires n > 0 && order > 0
    ensures Binomial(n + order, order) * word
         == Binomial(n + order - 1, order) * word + Binomial(n + order - 1, order - 1) * word
  {
    var p, q := Binomial(n + order - 1, order), Binomial(n + order - 1, order - 1);
    assert Binomial(n + order, order) == p + q;
    hide Binomial;
    assert (p + q) * word == p * word + q * word;
  }

  lemma WeightedCons(word: U32, words: seq<U32>, order: nat)
    ensures Weighted([word] + words, order) == Binomial(|words| + order, order) * word + Weighted(words, order)
  {
    assert ([word] + words)[1..] == words;
  }

  /** Appending a word adds the next lower order's sum, as the running update does. */
  lemma {:induction false} WeightedSnoc(words: seq<U32>, word: U32, order: nat)
    requires order > 0
    ensures Weighted(words + [word], order) == Weighted(words, order) + Weighted(words + [word], order - 1)
  {
    if words == [] {
      BinomialDiagonal(order);
      BinomialDiagonal(order - 1);
      assert [] + [word] == [word] + [];
      WeightedCons(word, [], order);
      WeightedCons(word, [], order - 1);
    } else {
      var first, rest := words[0], words[1..];
      assert words == [first] + rest && words + [word] == [first] + (rest + [word]);
      WeightedSnoc(rest, word, order);
      hide Binomial;
      hide Weighted;
      WeightedCons(first, rest, order);
      WeightedCons(first, rest + [word], order);
      WeightedCons(first, rest + [word], order - 1);
      Pascal(|words|, order, first);
    }
  }

  lemma {:induction false} SumSnoc(words: seq<U32>, word: U32)
    ensures Weighted(words + [word], 0) == Weighted(words, 0) + word
  {
    if words == [] {
      assert [] + [word] == [word] + [];
      WeightedCons(word, [], 0);
    } else {
      assert words == [words[0]] + words[1..] && words + [word] == [words[0]] + (words[1..] + [word]);
      SumSnoc(words[1..], word);
      WeightedCons(words[0], words[1..], 0);
      WeightedCons(words[0], words[1..] + [word], 0);
    }
  }

  function Residue(x: int): U64 { x % WRAP }

  function Wrapped(words: seq<U32>): Sums {
    Sums(Residue(Weighted(words, 0)), Residue(Weighted(words, 1)), Residue(Weighted(words, 2)), Residue(Weighted(words, 3)))
  }

  lemma ResidueAdd(x: int, y: int)
    ensures (Residue(x) + Residue(y)) % WRAP == Residue(x + y)
    ensures (Residue(x) + y) % WRAP == Residue(x + y)
  {
  }

  /** The running update works on residues as it would on the unbounded sums. */
  lemma StepResidues(a: int, b: int, c: int, d: int, word: U32)
    ensures Step(Sums(Residue(a), Residue(b), Residue(c), Residue(d)), word)
         == var a', b' := a + word, b + (a + word);
            var c' := c + b';
            Sums(Residue(a'), Residue(b'), Residue(c'), Residue(d + c'))
  {
    var a', b' := a + word, b + (a + word);
    ResidueAdd(a, word);
    ResidueAdd(b, a');
    ResidueAdd(c, b');
    ResidueAdd(d, c + b');
    hide Residue;
  }

  /** The four sums are the weighted sums of order 0 to 3, modulo 2^64. */
  lemma {:induction false} ClosedForm(words: seq<U32>)
    ensures Fold(ZERO, words) == Wrapped(words)
    decreases |words|
  {
    if words != [] {
      var front, word := words[..|words| - 1], words[|words| - 1];
      ClosedForm(front);
      assert words == front + [word];
      assert Fold(ZERO, words) == Step(Fold(ZERO, front), word);
      hide *;
      SumSnoc(front, word);
      WeightedSnoc(front, word, 1);
      WeightedSnoc(front, word, 2);
      WeightedSnoc(front, word, 3);
      StepWrapped(front, words, word);
    }
  }

  lemma StepWrapped(front: seq<U32>, words: seq<U32>, word: U32)
    requires Weighted(words, 0) == Weighted(front, 0) + word
    requires forall k: nat :: 0 < k <= 3 ==> Weighted(words, k) == Weighted(front, k) + Weighted(words, k - 1)
    ensures Step(Wrapped(front), word) == Wrapped(words)
  {
    hide Weighted;
    hide Residue;
    hide Step;
    StepResidues(Weighted(front, 0), Weighted(front, 1), Weighted(front, 2), Weighted(front, 3), word);
    assert Weighted(words, 1) == Weighted(front, 1) + Weighted(words, 0);
    assert Weighted(words, 2) == Weighted(front, 2) + Weighted(words, 1);
    assert Weighted(words, 3) == Weighted(front, 3) + Weighted(words, 2);
  }

  // ---------- Detection ----------

  lemma {:induction false} WeightedReplace(words: seq<U32>, i: nat, value: U32, order: nat)
    requires i < |words|
    ensures Weighted(words[i := value], order)
         == Weighted(words, order) + Binomial(|words| - 1 - i + order, order) * (value - words[i])
    decreases |words|
  {
    var changed := words[i := value];
    if i == 0 {
      assert changed[1..] == words[1..];
    } else {
      assert changed[1..] == words[1..][i - 1 := value];
      WeightedReplace(words[1..], i - 1, value, order);
    }
  }

  lemma {:induction false} BinomialOne(n: nat)
    ensures Binomial(n, 1) == n
  {
    if n > 0 {
      BinomialOne(n - 1);
    }
  }

  /** The first two sums see a changed word with weights 1 and its distance from the end. */
  lemma ChangeSeen(words: seq<U32>, i: nat, value: U32)
    requires i < |words|
    ensures var p: int := value as int - words[i];
            && Weighted(words[i := value], 0) == Weighted(words, 0) + p
            && Weighted(words[i := value], 1) == Weighted(words, 1) + (|words| - i) * p
  {
    BinomialOne(|words| - i);
    assert Binomial(|words| - 1 - i, 0) == 1;
    hide *;
    WeightedReplace(words, i, value, 0);
    WeightedReplace(words, i, value, 1);
  }

  lemma TwoChanges(xs: seq<U32>, ys: seq<U32>, i: nat, j: nat)
    requires |xs| == |ys| && i < j < |xs|
    requires forall k :: 0 <= k < |xs| && k != i && k != j ==> xs[k] == ys[k]
    ensures var p: int, q: int := ys[i] as int - xs[i], ys[j] as int - xs[j];
            && Weighted(ys, 0) - Weighted(xs, 0) == p + q
            && Weighted(ys, 1) - Weighted(xs, 1) == (|xs| - i) * p + (|xs| - j) * q
  {
    hide *;
    var middle := xs[i := ys[i]];
    assert ys == middle[j := ys[j]];
    ChangeSeen(xs, i, ys[i]);
    ChangeSeen(middle, j, ys[j]);
  }

  /** Among equally long inputs of fewer than 2^32 words, changing one or two words changes the checksum. */
  lemma DetectsTwoWords(xs: seq<U32>, ys: seq<U32>, i: nat, j: nat)
    requires |xs| == |ys| < 0x1_0000_0000 && i < j < |xs| && xs != ys
    requires forall k :: 0 <= k < |xs| && k != i && k != j ==> xs[k] == ys[k]
    ensures Fold(ZERO, xs) != Fold(ZERO, ys)
  {
    hide *;
    TwoChanges(xs, ys, i, j);
    ClosedForm(xs);
    ClosedForm(ys);
    if Wrapped(xs) == Wrapped(ys) {
      SameWrapped(xs, ys);
      TwoSums(|xs|, i, j, ys[i] as int - xs[i], ys[j] as int - xs[j],
              Weighted(xs, 0), Weighted(ys, 0), Weighted(xs, 1), Weighted(ys, 1));
    }
  }

  /** The first sum forces the two differences to cancel; the second then sees their distance. */
  lemma TwoSums(n: nat, i: nat, j: nat, p: int, q: int, x0: int, y0: int, x1: int, y1: int)
    requires i < j < n < 0x1_0000_0000 && (p != 0 || q != 0)
    requires -0x1_0000_0000 < p < 0x1_0000_0000 && -0x1_0000_0000 < q < 0x1_0000_0000
    requires y0 - x0 == p + q && y1 - x1 == (n - i) * p + (n - j) * q
    ensures Residue(x0) != Residue(y0) || Residue(x1) != Residue(y1)
  {
    if Residue(x0) == Residue(y0) {
      SameResidue(x0, y0);
      assert q == -p;
      Collapse(n, i, j, p);
      SmallProduct(j - i, p);
      if Residue(x1) == Residue(y1) {
        SameResidue(x1, y1);
      }
    }
  }

  /** Changing one word changes the checksum at any length. */
  lemma DetectsOneWord(xs: seq<U32>, i: nat, value: U32)
    requires i < |xs| && value != xs[i]
    ensures Fold(ZERO, xs[i := value]) != Fold(ZERO, xs)
  {
    ClosedForm(xs);
    ClosedForm(xs[i := value]);
    hide *;
    ChangeSeen(xs, i, value);
    if Wrapped(xs[i := value]) == Wrapped(xs) {
      SameWrapped(xs, xs[i := value]);
      SameResidue(Weighted(xs, 0), Weighted(xs[i := value], 0));
    }
  }

  lemma Collapse(n: nat, i: nat, j: nat, p: int)
    ensures (n - i) * p + (n - j) * -p == (j - i) * p
  {
    assert (n - i) * p == (n - j) * p + (j - i) * p;
  }

  lemma SameWrapped(xs: seq<U32>, ys: seq<U32>)
    requires Wrapped(xs) == Wrapped(ys)
    ensures Residue(Weighted(xs, 0)) == Residue(Weighted(ys, 0)) && Residue(Weighted(xs, 1)) == Residue(Weighted(ys, 1))
  {
  }

  lemma SameResidue(x: int, y: int)
    requires Residue(x) == Residue(y)
    ensures -WRAP < y - x < WRAP ==> x == y
  {
  }

  lemma SmallProduct(k: nat, p: int)
    requires 0 < k < 0x1_0000_0000 && -0x1_0000_0000 < p < 0x1_0000_0000 && p != 0
    ensures -WRAP < k * p < WRAP && k * p != 0
  {
    var m := if p > 0 then p else -p;
    assert 0 < k * m;
    assert k * m <= 0xFFFF_FFFF * m <= 0xFFFF_FFFF * 0xFFFF_FFFF by { Monotone(k, 0xFFFF_FFFF, m); }
    assert p < 0 ==> k * p == -(k * m);
  }

  lemma Monotone(k: nat, bound: nat, m: nat)
    requires k <= bound
    ensures k * m <= bound * m
  {
  }

  // ---------- The running checksum ----------

  class Fletcher4 {
    var sums: Sums

    constructor ()
      ensures sums == ZERO
    {
      sums := ZERO;
    }

    method Reset()
      modifies this
      ensures sums == ZERO
    {
      sums := ZERO;
    }

    method Update(bytes: seq<Byte>) returns (ok: bool)
      modifies this
      ensures ok <==> |bytes| % 4 == 0
      ensures sums == if ok then Fold(old(sums), Words(bytes)) else old(sums)
    {
      if |bytes| % 4 != 0 {
        return false;
      }
      hide Step;
      ghost var words := Words(bytes);
      var done := 0;
      while done < |bytes| / 4
        invariant 0 <= done <= |words|
        invariant sums == Fold(old(sums), words[..done])
      {
        FoldWord(old(sums), words, done);
        Absorb(Le32(bytes[4 * done..4 * done + 4]));
        done := done + 1;
      }
      assert words[..done] == words;
      return true;
    }

    /** Four wrapping additions, each using the sum before it. */
    method Absorb(word: U32)
      modifies this
      ensures sums == Step(old(sums), word)
    {
      var a := (sums.a + word) % WRAP;
      var b := (sums.b + a) % WRAP;
      var c := (sums.c + b) % WRAP;
      sums := Sums(a, b, c, (sums.d + c) % WRAP);
    }
  }
}
