/** The grammar symbols and records of the grammar-specification front end:
    terminals, nonterminals, the symbol sum type, AST directives, production
    lists and grammar rules, together with the equality operators and hashes
    declared for the two symbol kinds, and the delimiter check `match_ends`. */
module GrammarSymbols {

  /** Largest value of `size_t` on a 64-bit target. */
  const SIZE_MAX: int := 0xFFFF_FFFF_FFFF_FFFF

  /** An unsigned machine word, as `size_t`. */
  type SizeT = x: int | 0 <= x <= SIZE_MAX

  // ---------------------------------------------------------------------------
  // Delimiter matching
  // ---------------------------------------------------------------------------

  /** `p` is a prefix of `s`. */
  predicate StartsWith(s: string, p: string) {
    |p| <= |s| && s[..|p|] == p
  }

  /** `p` is a suffix of `s`. */
  predicate EndsWith(s: string, p: string) {
    |p| <= |s| && s[|s| - |p|..] == p
  }

  /** `match_ends`: the string begins with the character `start` and ends
      with the character `end`. The empty string does neither; a string of
      one character matches when that character equals both. */
  function MatchEnds(src: string, start: char, end: char): (r: bool)
    ensures r <==> StartsWith(src, [start]) && EndsWith(src, [end])
    ensures src == [] ==> !r
  {
    |src| > 0 && src[0] == start && src[|src| - 1] == end
  }

  /** A string built as `start`, then any text, then `end` always matches. */
  lemma MatchEndsWrapped(start: char, inner: string, end: char)
    ensures MatchEnds([start] + inner + [end], start, end)
  {
  }

  // ---------------------------------------------------------------------------
  // Symbols
  // ---------------------------------------------------------------------------

  /** A literal token of the grammar. */
  datatype Terminal = Terminal(value: string)

  /** A named, further-derivable grammar category. */
  datatype NonTerminal = NonTerminal(name: string)

  /** `std::variant<Terminal, NonTerminal>`: exactly one kind is active. */
  datatype Symbol = T(terminal: Terminal) | N(nonTerminal: NonTerminal)

  /** `Terminal::operator==`: compares the literal text only. Since the text
      is the whole record, this is value equality of terminals. */
  function TerminalEq(a: Terminal, b: Terminal): (r: bool)
    ensures r <==> a == b
  {
    a.value == b.value
  }

  /** `NonTerminal::operator==`: compares the names only, which makes it
      value equality of nonterminals. */
  function NonTerminalEq(a: NonTerminal, b: NonTerminal): (r: bool)
    ensures r <==> a == b
  {
    a.name == b.name
  }

  /** `Terminal::operator==` is an equivalence relation. */
  lemma TerminalEqIsEquivalence()
    ensures forall a :: TerminalEq(a, a)
    ensures forall a, b :: TerminalEq(a, b) ==> TerminalEq(b, a)
    ensures forall a, b, c :: TerminalEq(a, b) && TerminalEq(b, c) ==> TerminalEq(a, c)
  {
  }

  /** `NonTerminal::operator==` is an equivalence relation. */
  lemma NonTerminalEqIsEquivalence()
    ensures forall a :: NonTerminalEq(a, a)
    ensures forall a, b :: NonTerminalEq(a, b) ==> NonTerminalEq(b, a)
    ensures forall a, b, c :: NonTerminalEq(a, b) && NonTerminalEq(b, c) ==> NonTerminalEq(a, c)
  {
  }

  /** `std::hash<grammar::Terminal>`: the library's string hash `h` applied
      to the literal text. The string hash itself is a parameter. */
  function TerminalHash(h: string -> SizeT, t: Terminal): (r: SizeT)
    ensures forall u :: TerminalEq(u, t) ==> r == h(u.value)
  {
    h(t.value)
  }

  /** `std::hash<grammar::NonTerminal>`: the string hash `h` of the name. */
  function NonTerminalHash(h: string -> SizeT, nt: NonTerminal): (r: SizeT)
    ensures forall u :: NonTerminalEq(u, nt) ==> r == h(u.name)
  {
    h(nt.name)
  }

  /** Equal terminals hash equally, whatever the string hash is. */
  lemma TerminalHashAgreesWithEq(h: string -> SizeT, a: Terminal, b: Terminal)
    requires TerminalEq(a, b)
    ensures TerminalHash(h, a) == TerminalHash(h, b)
  {
  }

  /** Equal nonterminals hash equally, whatever the string hash is. */
  lemma NonTerminalHashAgreesWithEq(h: string -> SizeT, a: NonTerminal, b: NonTerminal)
    requires NonTerminalEq(a, b)
    ensures NonTerminalHash(h, a) == NonTerminalHash(h, b)
  {
  }

  // ---------------------------------------------------------------------------
  // Rule records
  // ---------------------------------------------------------------------------

  /** How a rule's matched symbols become an AST node: flatten into the
      parent, keep every child, or keep the listed child positions. */
  datatype ASTRule = ASTRule(doFlatten: bool, useAllChildren: bool, children: seq<SizeT>)

  /** The alternatives of a right-hand side, each a sequence of symbols. */
  datatype ProductionList = ProductionList(production: seq<seq<Symbol>>)

  /** One rule: its left-hand nonterminal, right-hand alternatives, AST
      directive and the semantic-action text kept verbatim. */
  datatype GrammarRule = GrammarRule(
    left: NonTerminal,
    right: ProductionList,
    astRule: ASTRule,
    sematicActions: string)
}
