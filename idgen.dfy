/**
 * Note ids: a prefix, a dash and `IdLen` symbols drawn from a fixed
 * alphabet of digits and capital letters without `P`. The random draws
 * (`randint(0, AlpLen - 1)`) are a parameter.
 */
module IdGen {
  const IdLen: nat := 4

  const Alphabet: seq<char> :=
    ['0', '1', '2', '3', '4', '5', '6', '7', '8', '9', 'A', 'B', 'C',
     'D', 'E', 'F', 'G', 'H', 'I', 'J', 'K', 'L', 'M', 'N', 'O', 'Q',
     'R', 'S', 'T', 'U', 'V', 'W', 'X', 'Y', 'Z']

  const AlpLen: nat := |Alphabet|

  /** Draws as `randint(0, AlpLen - 1)` returns them: each an index into the alphabet. */
  predicate ValidDraws(draws: seq<nat>) {
    forall i :: 0 <= i < |draws| ==> draws[i] < AlpLen
  }

  /** The symbols the draws pick, in order. */
  function Symbols(draws: seq<nat>): (r: string)
    requires ValidDraws(draws)
    ensures |r| == |draws|
    ensures forall i :: 0 <= i < |draws| ==> r[i] == Alphabet[draws[i]]
  {
    seq(|draws|, i requires 0 <= i < |draws| => Alphabet[draws[i]])
  }

  /** `_generate_id`: the prefix, a dash, then one alphabet symbol per draw. */
  method GenerateId(prefix: string, draws: seq<nat>) returns (id: string)
    requires |draws| == IdLen && ValidDraws(draws)
    ensures id == prefix + "-" + Symbols(draws)
  {
    id := prefix;
    id := id + "-";
    for i := 0 to IdLen
      invariant id == prefix + "-" + Symbols(draws[..i])
    {
      assert Symbols(draws[..i + 1]) == Symbols(draws[..i]) + [Alphabet[draws[i]]];
      id := id + [Alphabet[draws[i]]];
    }
    assert draws[..IdLen] == draws;
  }

  /** The code of the symbol at index `i`: the ten digits, then `A` to `O`, then `Q` to `Z`. */
  function Code(i: nat): int {
    if i < 10 then '0' as int + i else if i < 25 then 'A' as int + i - 10 else 'Q' as int + i - 25
  }

  /** The alphabet has 35 symbols, each with the code of its index. */
  lemma AlphabetCodes()
    ensures AlpLen == 35 && forall i :: 0 <= i < AlpLen ==> Alphabet[i] as int == Code(i)
  {
  }

  /** The alphabet has no `P`, and its symbols are pairwise distinct. */
  lemma AlphabetFacts()
    ensures 'P' !in Alphabet
    ensures forall i, j :: 0 <= i < j < AlpLen ==> Alphabet[i] != Alphabet[j]
  {
    AlphabetCodes();
  }

  /** Where a symbol sits in the alphabet. */
  function SymbolIndex(c: char): (r: nat)
    requires c in Alphabet
    ensures r < AlpLen && Alphabet[r] == c
  {
    AlphabetCodes();
    if c <= '9' then c as int - '0' as int
    else if c <= 'O' then c as int - 'A' as int + 10
    else c as int - 'Q' as int + 25
  }

  /** Reading the draws back from an id's suffix. */
  function DrawsOf(suffix: string): (r: seq<nat>)
    requires forall i :: 0 <= i < |suffix| ==> suffix[i] in Alphabet
    ensures |r| == |suffix| && ValidDraws(r)
  {
    seq(|suffix|, i requires 0 <= i < |suffix| => SymbolIndex(suffix[i]))
  }

  /**
   * A generated id has the prefix, then a dash, then `IdLen` alphabet
   * symbols (so never a `P`), and its length is the prefix's plus five.
   */
  lemma GeneratedShape(prefix: string, draws: seq<nat>)
    requires |draws| == IdLen && ValidDraws(draws)
    ensures var id := prefix + "-" + Symbols(draws);
      && |id| == |prefix| + 5
      && id[..|prefix|] == prefix && id[|prefix|] == '-'
      && (forall i :: |prefix| < i < |id| ==> id[i] in Alphabet && id[i] != 'P')
  {
    AlphabetFacts();
    var id := prefix + "-" + Symbols(draws);
    forall i | |prefix| < i < |id| ensures id[i] in Alphabet && id[i] != 'P' {
      assert id[i] == Symbols(draws)[i - |prefix| - 1];
    }
  }

  /** The draws can be read back from the id: different draws give different ids. */
  lemma {:induction false} DrawsRoundTrip(prefix: string, draws: seq<nat>)
    requires |draws| == IdLen && ValidDraws(draws)
    ensures var id := prefix + "-" + Symbols(draws);
      forall i :: |prefix| < i < |id| ==> id[i] in Alphabet
    ensures var id := prefix + "-" + Symbols(draws);
      DrawsOf(id[|prefix| + 1..]) == draws
  {
    AlphabetFacts();
    var id := prefix + "-" + Symbols(draws);
    assert id[|prefix| + 1..] == Symbols(draws);
    forall i | 0 <= i < |draws| ensures DrawsOf(Symbols(draws))[i] == draws[i] {
      assert DrawsOf(Symbols(draws))[i] == SymbolIndex(Alphabet[draws[i]]);
    }
  }
}
