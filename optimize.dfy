/**
 * Finder selection and the compile glue of the regular-expression engine
 * (include/boost/xpressive/detail/core/optimize.hpp).
 *
 * After a pattern is parsed, `common_compile` links the expression, peeks
 * into it to learn what a match can begin with, and picks one of three
 * finders (or none) that skips input positions where no match can start.
 * The finders' scanning, the linker and the peeker are not part of this
 * model: finders are values recording what they were built from, and link
 * and peek are parameters of `CommonCompile`.
 */
module Optimize {
  import opened Wrappers

  /** `hash_peek_bitset`'s bit table: one bit per possible leading character (byte value). */
  type Bitset = b: seq<bool> | |b| == 256 witness seq(256, _ => false)

  /** Number of set bits (`std::bitset::count`). */
  function Count(s: seq<bool>): (n: nat)
    ensures n <= |s|
  {
    if s == [] then 0 else (if s[0] then 1 else 0) + Count(s[1..])
  }

  /** Character `c` is the one and only set bit of `s`. */
  predicate OnlyBit(s: seq<bool>, c: int) {
    0 <= c < |s| && s[c] && forall j :: 0 <= j < |s| && j != c ==> !s[j]
  }

  lemma {:induction false} CountZero(s: seq<bool>)
    ensures Count(s) == 0 <==> forall i :: 0 <= i < |s| ==> !s[i]
  {
    if s != [] {
      CountZero(s[1..]);
      assert forall i :: 0 <= i < |s| - 1 ==> s[1..][i] == s[i + 1];
    }
  }

  /** All bits are set exactly when the count equals the length. */
  lemma {:induction false} CountAll(s: seq<bool>)
    ensures Count(s) == |s| <==> forall i :: 0 <= i < |s| ==> s[i]
  {
    if s != [] {
      CountAll(s[1..]);
      assert forall i :: 0 <= i < |s| - 1 ==> s[1..][i] == s[i + 1];
    }
  }

  /** A count of one means exactly one character is a possible leading character. */
  lemma {:induction false} CountOne(s: seq<bool>)
    ensures Count(s) == 1 <==> exists c :: OnlyBit(s, c)
  {
    if s == [] {
      assert forall c :: !OnlyBit(s, c);
    } else {
      var t := s[1..];
      assert forall i :: 0 <= i < |t| ==> t[i] == s[i + 1];
      if s[0] {
        CountZero(t);
        if Count(s) == 1 {
          assert OnlyBit(s, 0);
        }
        if exists c :: OnlyBit(s, c) {
          var c :| OnlyBit(s, c);
          assert c == 0;
        }
      } else {
        CountOne(t);
        if Count(s) == 1 {
          var c :| OnlyBit(t, c);
          assert OnlyBit(s, c + 1);
        }
        if exists c :: OnlyBit(s, c) {
          var c :| OnlyBit(s, c);
          assert c != 0;
          assert OnlyBit(t, c - 1);
        }
      }
    }
  }

  /** The freshly constructed bitset that `common_compile` hands to the peeker: no bit set. */
  function EmptyBitset(): (b: Bitset)
    ensures Count(b) == 0
    ensures forall c :: 0 <= c < 256 ==> !b[c]
  {
    var b := seq(256, _ => false);
    CountZero(b);
    b
  }

  /** A leading string literal found by the peeker (`get_string`), with its case flag. */
  datatype LeadingString = LeadingString(chars: seq<char>, icase: bool)

  /** What the peeker learned: possible leading characters, whether a match must start
      a line, and an optional leading literal. */
  datatype PeekResult = PeekResult(bits: Bitset, lineStart: bool, str: Option<LeadingString>)

  /** The assertion the random-access selector makes before building a Boyer-Moore finder. */
  predicate Consistent(peek: PeekResult) {
    peek.str.Some? ==> Count(peek.bits) == 1
  }

  /** Under the assertion, a leading literal means exactly one possible leading character. */
  lemma ConsistentLiteralHasOneLeadingChar(peek: PeekResult)
    requires Consistent(peek) && peek.str.Some?
    ensures exists c :: OnlyBit(peek.bits, c)
  {
    CountOne(peek.bits);
  }

  /** The finders, as the values they are constructed from; `Tr` is the opaque traits type. */
  datatype Finder<Tr> =
    | BoyerMoore(pattern: seq<char>, traits: Tr, icase: bool)
    | LineStart(traits: Tr)
    | HashPeek(bits: Bitset)

  /** Selection for forward-only iterators (the `mpl::false_` overload). */
  function OptimizeForward<Tr>(peek: PeekResult, traits: Tr): (r: Option<Finder<Tr>>)
    ensures r.Some? ==> !r.value.BoyerMoore?
    ensures peek.lineStart ==> r == Some(LineStart(traits))
    ensures !peek.lineStart ==>
      (r == Some(HashPeek(peek.bits)) <==> exists c :: 0 <= c < 256 && !peek.bits[c])
    ensures !peek.lineStart ==> (r == None <==> forall c :: 0 <= c < 256 ==> peek.bits[c])
  {
    CountAll(peek.bits);
    if peek.lineStart then
      Some(LineStart(traits))
    else if 256 != Count(peek.bits) then
      Some(HashPeek(peek.bits))
    else
      None
  }

  /** Selection for random-access iterators (the `mpl::true_` overload). */
  function OptimizeRandom<Tr>(peek: PeekResult, traits: Tr): (r: Option<Finder<Tr>>)
    requires Consistent(peek)
    ensures peek.str.Some? ==>
      r == Some(BoyerMoore(peek.str.value.chars, traits, peek.str.value.icase))
    ensures peek.str.None? ==> r == OptimizeForward(peek, traits)
  {
    match peek.str
    case Some(s) => Some(BoyerMoore(s.chars, traits, s.icase))
    case None => OptimizeForward(peek, traits)
  }

  /** The two overloads disagree exactly when the peeker found a leading literal. */
  lemma RandomDiffersOnlyOnLiteral<Tr>(peek: PeekResult, traits: Tr)
    requires Consistent(peek)
    ensures OptimizeRandom(peek, traits) != OptimizeForward(peek, traits) <==> peek.str.Some?
  {
  }

  /** The dispatch on `is_random<iterator_type>`. */
  function Select<Tr>(peek: PeekResult, traits: Tr, isRandom: bool): (r: Option<Finder<Tr>>)
    requires isRandom ==> Consistent(peek)
    ensures r.Some? && r.value.BoyerMoore? ==>
      isRandom && peek.str == Some(LeadingString(r.value.pattern, r.value.icase)) && r.value.traits == traits
    ensures r.Some? && r.value.LineStart? ==> peek.lineStart && r.value.traits == traits
    ensures r.Some? && r.value.HashPeek? ==> r.value.bits == peek.bits
  {
    if isRandom then OptimizeRandom(peek, traits) else OptimizeForward(peek, traits)
  }

  /** The strategies, in the order the selector prefers them. */
  datatype Kind = BoyerMooreKind | LineStartKind | HashPeekKind | NoFinderKind

  function KindOf<Tr>(f: Option<Finder<Tr>>): Kind {
    match f
    case None => NoFinderKind
    case Some(BoyerMoore(_, _, _)) => BoyerMooreKind
    case Some(LineStart(_)) => LineStartKind
    case Some(HashPeek(_)) => HashPeekKind
  }

  /** Preference: lower is preferred. */
  function Rank(k: Kind): nat {
    match k
    case BoyerMooreKind => 0
    case LineStartKind => 1
    case HashPeekKind => 2
    case NoFinderKind => 3
  }

  /** When a strategy could be used at all: a literal search needs random access and a
      literal, the line-start finder needs the line-start flag, the bitset finder needs
      some character to be excluded; trying every position is always possible. */
  predicate Applicable(k: Kind, peek: PeekResult, isRandom: bool) {
    match k
    case BoyerMooreKind => isRandom && peek.str.Some?
    case LineStartKind => peek.lineStart
    case HashPeekKind => exists c :: 0 <= c < 256 && !peek.bits[c]
    case NoFinderKind => true
  }

  /** The selected strategy is applicable and no applicable strategy is preferred to it. */
  lemma SelectIsMostPreferredApplicable<Tr>(peek: PeekResult, traits: Tr, isRandom: bool)
    requires isRandom ==> Consistent(peek)
    ensures Applicable(KindOf(Select(peek, traits, isRandom)), peek, isRandom)
    ensures forall k :: Applicable(k, peek, isRandom) ==>
      Rank(KindOf(Select(peek, traits, isRandom))) <= Rank(k)
  {
  }

  /** The compiled expression (`RegEx`); linking updates it in place. `G` is its graph. */
  class Regex<G> {
    var graph: G

    constructor (g: G)
      ensures graph == g
    {
      graph := g;
    }
  }

  /** `regex_impl`: the compiled matcher, holding the selected finder and the expression. */
  class RegexImpl<G, Tr> {
    var finder: Option<Finder<Tr>>
    var xpr: Option<Regex<G>>

    constructor ()
      ensures finder == None && xpr == None
    {
      finder := None;
      xpr := None;
    }
  }

  /**
   * `common_compile`: link the expression, peek into it with a fresh bitset, then store
   * the finder selected for the iterator's traversal capability and the expression.
   * `link` stands for running `xpression_linker` over the graph, `peek` for running
   * `xpression_peeker` over it starting from the given bitset.
   */
  method CommonCompile<G, Tr>(regex: Regex<G>, impl: RegexImpl<G, Tr>, traits: Tr, isRandom: bool,
                              link: (G, Tr) -> G, peek: (G, Bitset, Tr) -> PeekResult)
    requires isRandom ==> Consistent(peek(link(regex.graph, traits), EmptyBitset(), traits))
    modifies regex, impl
    ensures regex.graph == link(old(regex.graph), traits)
    ensures impl.finder == Select(peek(regex.graph, EmptyBitset(), traits), traits, isRandom)
    ensures impl.xpr == Some(regex)
  {
    regex.graph := link(regex.graph, traits);
    var bset := EmptyBitset();
    var peeked := peek(regex.graph, bset, traits);
    impl.finder := Select(peeked, traits, isRandom);
    impl.xpr := Some(regex);
  }
}
