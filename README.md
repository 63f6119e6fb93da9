# Grammar model of the sgo-lang grammar front end

This project models the core of `include/grammar_parser.hpp` of the sgo-lang
parser generator. That header defines the in-memory form of a textual grammar
and the table that groups it by rule name:

- `Terminal` (a literal text) and `NonTerminal` (a name). Both are value types
  whose `operator==` compares their one field, and whose `std::hash`
  specialisation hashes only that field.
- `Symbol`, the two-way variant over them.
- `ASTRule`: the flatten flag, the keep-all-children flag and the child index
  list.
- `ProductionList`: the alternatives, each a list of symbols.
- `GrammarRule`: left-hand nonterminal, production list, AST directive and the
  semantic-action text.
- `match_ends`, a helper that checks the first and last character of a string.
- `Grammar`, whose constructor walks the rule list in order and groups it
  into `rule_map`, keyed by left-hand name. The first rule of a name creates
  its entry; later rules are appended to that entry.
- The two read-only queries `find_undefined_non_terminals` and
  `extract_terminals`.

Layout:

- `symbols.dfy` (module `GrammarSymbols`): the records as datatypes, the two
  equality operators, the two hashes and `MatchEnds`.
- `grammar.dfy` (module `GrammarModel`): the `Grammar` class.
  - Its constructor is the grouping loop over `rules`, updating the
    `ruleMap` field in place.
  - The loop is proved against `Grouped`, a specification function that gives,
    for every name, the in-order subsequence of rules with that name.
  - Lemmas about `Grouped` state the properties of the result: exact key
    set, per-key contents and order, nothing lost or duplicated.
  - The queries are ghost functions of the class that only read `ruleMap`, so
    they state what the queries return but cannot be executed. They are
    specified by membership: which nonterminals and terminals the result
    holds.

External collaborators are parameters:

- `std::hash<std::string>` is the parameter `h` of `TerminalHash` and
  `NonTerminalHash`.
- The iteration order of `std::unordered_map` is left open. The queries
  visit the keys in an order chosen by `:|`, which the model leaves
  unspecified.

Two facts about the header shape the model:

- `rule_map` is declared as `std::unordered_map` (line 83), so the table is a
  plain `map` with no key order.
- `match_ends` is only declared (line 16). The doc comment at line 15 asks
  only that the string start with `start` and end with `end`. So `MatchEnds`
  accepts a one-character string whose character is both delimiters.

## Model

| member | source | states |
|---|---|---|
| GrammarSymbols.MatchEnds | include/grammar_parser.hpp:15-16 | true exactly when the string starts with `start` and ends with `end`; the empty string never matches |
| GrammarSymbols.MatchEndsWrapped | include/grammar_parser.hpp:15-16 | a string made of `start`, any text and `end` always matches |
| GrammarSymbols.TerminalEq | include/grammar_parser.hpp:26 | `Terminal::operator==` holds exactly when the two terminals are equal values (same literal text) |
| GrammarSymbols.NonTerminalEq | include/grammar_parser.hpp:36 | `NonTerminal::operator==` holds exactly when the two nonterminals are equal values (same name) |
| GrammarSymbols.TerminalEqIsEquivalence | include/grammar_parser.hpp:26 | terminal equality is reflexive, symmetric and transitive |
| GrammarSymbols.NonTerminalEqIsEquivalence | include/grammar_parser.hpp:36 | nonterminal equality is reflexive, symmetric and transitive |
| GrammarSymbols.TerminalHash | include/grammar_parser.hpp:109-113 | the string hash `h` applied to the one field that `==` compares: every terminal equal under `==` gives the same value |
| GrammarSymbols.NonTerminalHash | include/grammar_parser.hpp:103-107 | the string hash `h` applied to the one field that `==` compares: every nonterminal equal under `==` gives the same value |
| GrammarSymbols.TerminalHashAgreesWithEq | include/grammar_parser.hpp:109-113 | for every string hash, terminals equal under `==` hash equally |
| GrammarSymbols.NonTerminalHashAgreesWithEq | include/grammar_parser.hpp:103-107 | for every string hash, nonterminals equal under `==` hash equally |
| GrammarModel.Grammar.constructor | include/grammar_parser.hpp:85-93 | the loop leaves `ruleMap` equal to `Grouped(rules)`: keys are exactly the input's left-hand names, each entry is that name's rules in input order, the table invariant holds, and the entries' lengths add up to the number of input rules |
| GrammarModel.GroupedSnoc | include/grammar_parser.hpp:87-90 | grouping one more rule creates a one-rule entry when its name is new and appends it to the existing entry otherwise, leaving the other keys alone |
| GrammarModel.GroupedShape | include/grammar_parser.hpp:85-93 | the grouped table's keys are exactly the input's names; every entry is non-empty and holds only rules of its own name; every input rule is found under its name |
| GrammarModel.RulesNamedEmpty | include/grammar_parser.hpp:86-91 | a name has an empty group exactly when no input rule carries it, so no other keys are created |
| GrammarModel.RulesNamedAllNamed | include/grammar_parser.hpp:85-93 | every rule stored for key `k` has left-hand name `k` |
| GrammarModel.RulesNamedCount | include/grammar_parser.hpp:86-91 | each rule of name `k` occurs in `k`'s group exactly as often as in the input, and a rule of another name does not occur there |
| GrammarModel.RulesNamedAppend | include/grammar_parser.hpp:86-91 | per-key order follows input order: the group of a concatenation is the first part's group followed by the second part's |
| GrammarModel.GroupedTotal | include/grammar_parser.hpp:86-91 | the lengths of all per-key lists add up to the number of input rules |
| GrammarModel.AddUndefined | include/grammar_parser.hpp:95 | scanning symbols adds exactly the nonterminals that occur in them and whose names are not table keys |
| GrammarModel.CollectUndefined | include/grammar_parser.hpp:95 | scanning the rules under a set of keys, in any key order, adds exactly the undefined nonterminals occurring under those keys |
| GrammarModel.AddTerminals | include/grammar_parser.hpp:97 | scanning symbols adds exactly the terminals that occur in them |
| GrammarModel.CollectTerminals | include/grammar_parser.hpp:97 | scanning the rules under a set of keys, in any key order, adds exactly the terminals occurring under those keys |
| GrammarModel.Grammar.FindUndefinedNonTerminals | include/grammar_parser.hpp:95 | reads the table only; a nonterminal is in the result exactly when it occurs in some alternative of some stored rule and its name is not a key; the result is empty exactly when every referenced nonterminal is defined |
| GrammarModel.Grammar.ExtractTerminals | include/grammar_parser.hpp:97 | reads the table only; a terminal is in the result exactly when it occurs in some alternative of some stored rule |

## Left out

- `Terminal::parse`, `NonTerminal::parse`, `ASTRule::parse`, `ProductionList::parse`, `GrammarRule::parse` and `parse_grammar`: only declared in the header. The token syntax they accept is not part of this model, and any concrete syntax would be invented.
- `parse_grammar_from_file`: file I/O.
- `print_grammar` and every `to_string`: output rendering, declared without bodies.
- GrammarModel.Grammar.FindUndefinedNonTerminals: the order of the result and the absence of duplicates are not stated. Their bodies are not in the header; the model's scan drops repeats, but the contract promises only membership.
- GrammarModel.Grammar.ExtractTerminals: likewise, only membership is stated, not order or the absence of duplicates.
- The concrete values of `std::hash<std::string>` and the iteration order of `std::unordered_map`: library internals. The hash is a parameter; the key order is an unspecified choice.
- `Grammar::rule_map` is a public field that callers could overwrite after construction. The model has the constructor as its only writer and proves nothing about later writes.
- `size_t` is taken as 64 bits wide (`SizeT`). `char` is a Dafny character rather than a byte, so no property depends on byte encoding or signedness.
- The copies C++ makes when a rule is stored in the table are not modelled. Rules are values, so a copy is the same value.
