# fcitx5 quick-phrase providers, modelled in Dafny

This project models the quick-phrase providers of fcitx5
(`src/modules/quickphrase/quickphraseprovider.cpp`): the sources of
candidates that the quick-phrase mode asks, one after the other, for the
text the user typed.

- **Built-in provider.** A dictionary (a `std::multimap` from key to phrase)
  is rebuilt on reload from a base file and from fragment files, each of
  which may be disabled by a `.disable` sibling. Every line of a file goes
  through a small parser: trimming, a UTF-8 check, splitting into key and
  phrase at the first whitespace run, a quote rule and unescaping. A query
  lists the entries whose key starts with the typed text, starting at
  `lower_bound` and stopping at the first key that no longer matches.
- **Callback provider.** Registered callbacks run in order until one of
  them says stop.
- **Calculator provider.** `ArithParser` is a recursive-descent parser and
  evaluator for `+ - * /`, numbers and parentheses. It works over a mutable
  cursor. When it yields a value, that value is offered as one candidate
  that is applied without selection.
- **Spell provider.** It picks a dictionary language and offers the spell
  module's hints.

Layout, one module per file:

- `common.dfy` (`Common`): `Option`, candidates, actions, the provider
  outcome (`candidates`, `proceed`), the input context, the whitespace set
  and `StartsWith`.
- `lexorder.dfy` (`LexOrder`): the lexicographic order on keys, with its
  order laws and the prefix lemmas the lookup relies on.
- `prefixdict.dfy` (`PrefixDict`): the multimap as a key-sorted sequence of
  entries. It has `lower_bound`, `upper_bound`, and `emplace`, which inserts
  after the existing equal keys. It also has the reference filter `Matches`
  and the lemmas about both.
- `lineparser.dfy` (`LineParser`): the per-line logic of `load`, as pure
  functions and lemmas.
- `builtin.dfy` (`BuiltIn`): the class `BuiltInQuickPhraseProvider`. Its
  `entries` field is the multimap. Its methods are `Populate`, `Emplace`,
  `Load` and `ReloadConfig`. The module also holds the specification
  functions those methods are proved against.
- `arith.dfy` (`Arith`): the grammar as specification functions. The class
  `ArithParser` has a mutable `pos` and its mutually recursive
  `Factor`/`Term`/`Expr` methods, which are proved equal to those
  functions. The module also has `SkipSpaces`, the calculator provider, and
  the grammar's properties: round trip, precedence, associativity, trailing
  input and failure cases.
- `providers.dfy` (`Providers`): the callback chain and the spell provider.

Values of the calculator are terms of an abstract numeric domain (`Num`:
a literal token as `std::stod` reads it, or an operator applied to two
values). The parser's result is therefore stated exactly, without floating
point. `EvalReal` reads a term over the reals for the worked examples.

The code behaves as follows where a reader might expect otherwise:
- The quoted form `KEY "PHRASE"` is not accepted as written. A line that
  ends in `"` is kept only when the phrase is that single closing `"`. The
  stored phrase is then `unescape("", true)` (`LineParser.QuotedPhraseDropped`).
- Number tokens are any run of digits with at most one `.`, so `.5` and
  `1.` are numbers. A lone `.` is rejected because `std::stod` throws.
- `reloadConfig` clears the dictionary and refills it in place.

## Model

| member | source | states |
|---|---|---|
| LexOrder.LexLeTrans | src/modules/quickphrase/quickphraseprovider.cpp:22 | the key order the multimap keeps is transitive |
| LexOrder.LexLeTotal | src/modules/quickphrase/quickphraseprovider.cpp:22 | any two keys are comparable |
| LexOrder.LexLeAntisym | src/modules/quickphrase/quickphraseprovider.cpp:22 | keys that are each at most the other are equal |
| LexOrder.PrefixIsLe | src/modules/quickphrase/quickphraseprovider.cpp:22-28 | a prefix sorts no later than any key it starts |
| LexOrder.PrefixSandwich | src/modules/quickphrase/quickphraseprovider.cpp:22-28 | a key between a prefix and a key with that prefix also has that prefix, so the matching keys are contiguous |
| PrefixDict.LowerBound | src/modules/quickphrase/quickphraseprovider.cpp:22 | the index of the first entry whose key is not below the query; all earlier keys are below it |
| PrefixDict.UpperBound | src/modules/quickphrase/quickphraseprovider.cpp:109 | the index where `emplace` puts a key: past every key not above it, before the first key above it |
| PrefixDict.Matches | src/modules/quickphrase/quickphraseprovider.cpp:25-28 | the reference filter: only entries whose key starts with the prefix, never more entries than the dictionary |
| PrefixDict.Inserted | src/modules/quickphrase/quickphraseprovider.cpp:109 | `emplace` adds exactly one entry and keeps every old one (size one more, multiset grows by the entry) |
| PrefixDict.InsertedProps | src/modules/quickphrase/quickphraseprovider.cpp:109 | `emplace` keeps the dictionary sorted, adds exactly one entry and removes or overwrites nothing (multiset grows by the entry) |
| PrefixDict.InsertAllProps | src/modules/quickphrase/quickphraseprovider.cpp:68-110 | inserting a sequence keeps the dictionary sorted, and its size and multiset grow by exactly the inserted entries |
| PrefixDict.InsertedKeepsOrder | src/modules/quickphrase/quickphraseprovider.cpp:109 | the entries under one key stay in insertion order, the new one last |
| PrefixDict.InsertAllKeepsOrder | src/modules/quickphrase/quickphraseprovider.cpp:68-110 | after inserting a sequence, the entries under each key are the old ones followed by the new ones in load order |
| PrefixDict.MatchesCount | src/modules/quickphrase/quickphraseprovider.cpp:25-28 | an entry occurs in the filter as often as in the dictionary when its key starts with the prefix, and never otherwise |
| PrefixDict.EmptyPrefixMatchesAll | src/modules/quickphrase/quickphraseprovider.cpp:22-28 | the empty prefix matches the whole dictionary |
| PrefixDict.PrefixBlock | src/modules/quickphrase/quickphraseprovider.cpp:22-28 | in a sorted dictionary, the matching entries are exactly the block from `lower_bound` to the first non-matching key, so the early `break` misses nothing |
| PrefixDict.MatchesAppend | src/modules/quickphrase/quickphraseprovider.cpp:25-28 | filtering distributes over concatenation |
| BuiltIn.LookupShape | src/modules/quickphrase/quickphraseprovider.cpp:25-32 | one candidate per matching entry, in dictionary order: label = phrase, commit text = phrase, a space and the key past the typed text, action Commit; each entry is listed iff its key starts with the input |
| BuiltIn.LookupEmptyInput | src/modules/quickphrase/quickphraseprovider.cpp:22-32 | an empty input lists every entry, with the whole key in the commit text |
| BuiltIn.BuiltInQuickPhraseProvider.Populate | src/modules/quickphrase/quickphraseprovider.cpp:19-35 | the `lower_bound` scan with early exit yields exactly the reference lookup, always lets later providers run, and changes nothing |
| BuiltIn.BuiltInQuickPhraseProvider.Emplace | src/modules/quickphrase/quickphraseprovider.cpp:109 | the dictionary becomes the old one with the entry inserted after its equal keys, and stays sorted |
| BuiltIn.BuiltInQuickPhraseProvider.Load | src/modules/quickphrase/quickphraseprovider.cpp:59-111 | the dictionary becomes the old one with every kept line's entry inserted, in line order |
| BuiltIn.BuiltInQuickPhraseProvider.ReloadConfig | src/modules/quickphrase/quickphraseprovider.cpp:36-57 | the dictionary is emptied, then holds the base file's entries followed by those of every enabled fragment, in order, and is sorted |
| BuiltIn.FragmentContribution | src/modules/quickphrase/quickphraseprovider.cpp:51-56 | a disabled fragment contributes nothing; an enabled one contributes exactly its kept lines, between the fragments before and after it |
| BuiltIn.DisabledFragmentIgnored | src/modules/quickphrase/quickphraseprovider.cpp:51-54 | a disabled fragment has the same effect as no fragment at all |
| BuiltIn.ReloadResult | src/modules/quickphrase/quickphraseprovider.cpp:36-57 | after a reload the dictionary is sorted, its size is the number of kept lines, it holds exactly their entries, and under each key the base file's entries come before the fragments' |
| BuiltIn.FragmentEntriesAppend | src/modules/quickphrase/quickphraseprovider.cpp:51-56 | the fragments' contributions concatenate in fragment order |
| BuiltIn.InsertAllAppend | src/modules/quickphrase/quickphraseprovider.cpp:47-56 | loading one file after another equals loading their lines together |
| LineParser.CStr | src/modules/quickphrase/quickphraseprovider.cpp:69 | the line up to its first NUL: a prefix of the line, NUL-free, ending at a NUL or the line's end |
| LineParser.TrimStart | src/modules/quickphrase/quickphraseprovider.cpp:71-72 | a suffix of the text; what is removed is whitespace, and what remains starts with a non-whitespace character or is empty |
| LineParser.TrimEnd | src/modules/quickphrase/quickphraseprovider.cpp:71-72 | a prefix of the text; what is removed is whitespace, and what remains ends with a non-whitespace character or is empty |
| LineParser.Trim | src/modules/quickphrase/quickphraseprovider.cpp:71-76 | the trimmed text is a slice of the line with only whitespace before and after it, and it starts and ends with non-whitespace or is empty |
| LineParser.FindFirst | src/modules/quickphrase/quickphraseprovider.cpp:81-89 | the first index from `from` on whose whitespace-ness is as asked, or none when there is no such index |
| LineParser.ParseLine | src/modules/quickphrase/quickphraseprovider.cpp:69-107 | the loop body of `load` on one line: a key it yields is non-empty and holds no whitespace and no NUL |
| LineParser.ParseText | src/modules/quickphrase/quickphraseprovider.cpp:73-107 | from the trimmed text on: an entry comes only from non-empty valid UTF-8 text, and its key is the whitespace-free start of the text, followed by whitespace |
| LineParser.PhraseStartExists | src/modules/quickphrase/quickphraseprovider.cpp:86-89 | in trimmed text, a non-whitespace character always follows the key's whitespace, so the `npos` exit is unreachable |
| LineParser.ParseLineKept | src/modules/quickphrase/quickphraseprovider.cpp:69-94 | a line yields an entry iff its trimmed text is non-empty, valid UTF-8, contains whitespace, and, when it ends in `"`, has only whitespace between the key and that quote |
| LineParser.ParseTextKept | src/modules/quickphrase/quickphraseprovider.cpp:73-94 | the same iff, for text that is already trimmed |
| LineParser.ParseLineFields | src/modules/quickphrase/quickphraseprovider.cpp:81-107 | a kept line's key is non-empty, whitespace-free, starts the text and is followed by whitespace; its phrase is the unescaped text after the whitespace run, or `unescape("", true)` when the line ends in `"` |
| LineParser.ParseTextFields | src/modules/quickphrase/quickphraseprovider.cpp:81-107 | the same fields, for text that is already trimmed |
| LineParser.QuotedPhraseDropped | src/modules/quickphrase/quickphraseprovider.cpp:91-94 | `key "abc"` is dropped by the quote rule |
| Arith.ScanNumber | src/modules/quickphrase/quickphraseprovider.cpp:179-182 | the number scan ends within the input, never before where it starts |
| Arith.ScanToken | src/modules/quickphrase/quickphraseprovider.cpp:179-182 | a run of digits with at most one `.`, followed by a non-number character, is scanned exactly |
| Arith.ScanStopsAtSecondDot | src/modules/quickphrase/quickphraseprovider.cpp:179-182 | the scan takes the maximal run of digits with at most one `.`; it stops at any other character or at a second `.` |
| Arith.FactorAt | src/modules/quickphrase/quickphraseprovider.cpp:163-190 | the cursor never moves back or past the end, and a factor that succeeds consumes at least one character |
| Arith.TermAt | src/modules/quickphrase/quickphraseprovider.cpp:192-212 | the cursor stays within the input, and a term that succeeds consumes at least one character |
| Arith.TermRest | src/modules/quickphrase/quickphraseprovider.cpp:198-211 | the `*`/`/` loop of `term`: the cursor never moves back or past the end |
| Arith.ExprAt | src/modules/quickphrase/quickphraseprovider.cpp:214-234 | the cursor stays within the input, and an expression that succeeds consumes at least one character |
| Arith.ExprRest | src/modules/quickphrase/quickphraseprovider.cpp:220-233 | the `+`/`-` loop of `expr`: the cursor never moves back or past the end |
| Arith.Evaluate | src/modules/quickphrase/quickphraseprovider.cpp:249-250 | the calculator's parse from the start of the input; every value it yields is a well-formed term, whose literals are number tokens |
| Arith.ArithParser.Factor | src/modules/quickphrase/quickphraseprovider.cpp:163-190 | the method yields the factor value and the cursor that the grammar function gives; the cursor does not move back or past the end, and it advances on success |
| Arith.ArithParser.Term | src/modules/quickphrase/quickphraseprovider.cpp:192-212 | the loop with its early return at the end of input yields the grammar's term value and cursor |
| Arith.ArithParser.Expr | src/modules/quickphrase/quickphraseprovider.cpp:214-234 | the loop with its early return at the end of input yields the grammar's expression value and cursor |
| Arith.ArithParser.SkipSpaces | src/modules/quickphrase/quickphraseprovider.cpp:236-242 | the cursor advances by exactly the count returned, over whitespace only, and stops at non-whitespace or the end |
| Arith.FactorShow | src/modules/quickphrase/quickphraseprovider.cpp:163-190 | the fully parenthesised text of a term, followed by no digit or `.`, is read back as that term |
| Arith.ParseShow | src/modules/quickphrase/quickphraseprovider.cpp:214-234 | round trip: evaluating the printed form of any well-formed term gives back the term |
| Arith.ParenthesisedFactor | src/modules/quickphrase/quickphraseprovider.cpp:166-173 | `( l op r )` is one factor whose value is `l op r` |
| Arith.Precedence | src/modules/quickphrase/quickphraseprovider.cpp:192-234 | `x + y * z` (any low then high operator, operands printed terms) reads as `x + (y * z)` |
| Arith.PrecedenceHighFirst | src/modules/quickphrase/quickphraseprovider.cpp:192-234 | `x * y + z` (any high then low operator, operands printed terms) reads as `(x * y) + z`, as in `10/2-3` |
| Arith.LeftAssociative | src/modules/quickphrase/quickphraseprovider.cpp:198-233 | two operators of one level group to the left: `x - y - z` reads as `(x - y) - z`, for operands that are printed terms |
| Arith.TrailingIgnored | src/modules/quickphrase/quickphraseprovider.cpp:214-234 | anything after a number token or fully parenthesised term that is not an operator, digit or `.` is ignored, so `2abc` gives 2 and `1 + 2` gives 1 |
| Arith.NoFactorStart | src/modules/quickphrase/quickphraseprovider.cpp:163-190 | the empty input, and input that starts with anything other than a digit, `.` or `(` (such as `abc` or `-1`), has no value |
| Arith.LoneDotRejected | src/modules/quickphrase/quickphraseprovider.cpp:184-189 | a lone `.` is scanned but fails conversion, so the input has no value |
| Arith.DanglingOperator | src/modules/quickphrase/quickphraseprovider.cpp:192-234 | a number token or fully parenthesised term followed by one operator and nothing else, as in `1+`, fails the whole parse |
| Arith.UnclosedAt | src/modules/quickphrase/quickphraseprovider.cpp:166-171 | a `(` whose inner expression runs to the end of the input is a failed factor |
| Arith.UnclosedParenthesis | src/modules/quickphrase/quickphraseprovider.cpp:166-171 | input that opens with a `(` whose inner expression runs to the end of the input has no value |
| Arith.UnclosedTerm | src/modules/quickphrase/quickphraseprovider.cpp:166-171 | `(` followed by one printed term and nothing else has no value |
| Arith.UnclosedSumExample | src/modules/quickphrase/quickphraseprovider.cpp:166-171 | `(1+2` has no value |
| Arith.CalcPrecedenceExample | src/modules/quickphrase/quickphraseprovider.cpp:192-234 | `1+2*3` reads as `1 + (2 * 3)`, worth 7 |
| Arith.CalcAssociativityExample | src/modules/quickphrase/quickphraseprovider.cpp:214-234 | `8-4-2` reads as `(8 - 4) - 2`, worth 2 |
| Arith.SecondDotExample | src/modules/quickphrase/quickphraseprovider.cpp:179-189 | `1.2.3` yields the number 1.2 |
| Arith.CalcPopulate | src/modules/quickphrase/quickphraseprovider.cpp:245-256 | at most one candidate, label = commit text = the formatted value, action NoneSelectionCommit, none when the input has no value; later providers always run |
| Providers.Chain | src/modules/quickphrase/quickphraseprovider.cpp:145-150 | the callbacks run in order up to the first that says stop; a chain that proceeds holds every callback's candidates in order, and one that stops ran at least one callback |
| Providers.ChainProceeds | src/modules/quickphrase/quickphraseprovider.cpp:145-150 | the chain lets later providers run iff every callback does; the empty chain does |
| Providers.ChainAppend | src/modules/quickphrase/quickphraseprovider.cpp:145-150 | callbacks that all proceed contribute their candidates in order, ahead of the rest of the chain |
| Providers.ChainStopsAtVeto | src/modules/quickphrase/quickphraseprovider.cpp:146-148 | after a callback says stop, nothing registered later contributes, and the chain says stop |
| Providers.CallbackPopulate | src/modules/quickphrase/quickphraseprovider.cpp:142-151 | the loop computes the chain; it calls every callback when the chain proceeds, and otherwise stops right after the first that says stop, all before it having proceeded |
| Providers.SpellLanguage | src/modules/quickphrase/quickphraseprovider.cpp:126-133 | the input method's language is used when the spell module has it; otherwise the fallback, which must be supported when an input method is known and is unchecked when none is; giving up happens iff neither is supported |
| Providers.SpellPopulate | src/modules/quickphrase/quickphraseprovider.cpp:116-140 | nothing when spell is disabled, the module is absent or no language is usable; otherwise one `(w, w, Commit)` candidate per hint, in order; later providers always run |

## Left out

- `PandocQuickPhraseProvider::populate` is not part of this model. It runs an external process and uses temporary files.
- File access is not modelled (`StandardPath::open`/`multiOpen`, `fdopen`, `getline`). The base file is an optional sequence of lines. The fragments are a sequence of named line sequences, and the disabled markers are a set of names. A file that cannot be opened is the absent base file or an absent fragment.
- Fragment order is the order of the given sequence. `multiOpen` returns the fragments in name order; the model does not sort them.
- `utf8::validate` and `stringutils::unescape` are parameters (`LineParser.TextCodec`), because their code is not part of this model. The success flag that `unescape` returns is ignored by the loader, and so it is left out.
- The whitespace set is spaces, tabs, line feeds, carriage returns, form feeds and vertical tabs. This is the C locale's `isspace` set, used for trimming, for `FCITX_WHITESPACE` and in `skipSpaces`. The header that defines `FCITX_WHITESPACE` is not part of this model.
- Callbacks, the spell module (`checkDict`, `hint`), the input method entry, the configuration and the global page size are parameters or function values. They are treated as pure.
- Arith.FactorAt: `std::stod` is modelled as succeeding iff the token holds a digit, which assumes the C numeric locale (decimal point `.`); under another `LC_NUMERIC` the same token may read differently or throw. Its `out_of_range` failure on tokens too large for a `double` is not modelled.
- Arith.CalcPopulate: `double` arithmetic and `std::to_string` are not modelled. The value is a `Num` term, and `format` stands for the formatting. `EvalReal` reads terms over the exact reals and is undefined on division by zero, where a `double` gives infinity or NaN.
- Byte-level strings are not modelled: text is a sequence of characters, and `isdigit`/`isspace` are applied to characters.
