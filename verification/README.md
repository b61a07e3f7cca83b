# Tree tuples: a verified model of the pipeline in `src/App.js`

The application scrapes an image-category tree in which every node has `words`
and a `num_finalgood` image count. It turns the tree into a flat list of tuples
`{name: "a > b > c", size}`, stores those tuples in a key-value table, and
rebuilds a tree from the tuples. It also searches the tuples. This project
models the pure core of that pipeline in Dafny and proves what each step
promises.

The model is split into these modules:

- **Options, Strings** (`strings.dfy`). These are the JavaScript string
  primitives the code relies on, each written out:
  - `indexOf`, `split`/`join`, `trim`, and `substring` with its clamping;
  - `replace` with a string pattern;
  - `/[^0-9]+/g` removal and the `/\s\s+/g` collapse;
  - `parseInt(s, 10)`;
  - unary `+` restricted to integers;
  - `"" + n`;
  - string `<`.
- **Flatten** (`flatten.dfy`). This is `__flatten` and `__merge` over a
  JSON-like value. Objects are insertion-ordered dictionaries, and arrays give
  their elements keys `prop[dddd]`.
- **FlattenDocument** (`flatten_document.dfy`). This applies the flattener to
  the document shape the scraper produces: elements with a `synset` child array
  and string attributes. It proves the flat list equal to a reference: one
  record per element in document order, labelled by the chain of `words`.
- **Tuples** (`tuples.dfy`). This covers the `name***size` codec of the
  key-value table and the 25-item write batches.
- **Reassemble** (`reassemble.dfy`). This is `__reassembleTree` and
  `__construct`:
  - name decomposition;
  - the swap-based parent-first sort with its `lut` table;
  - the backward attach pass;
  - dropping `id`/`pid`.
- **Search** (`search.dfy`). This is the filter and outcome logic of `search`,
  with `__numericSortDescending`, as one function of (tuples, tree, field,
  term).
- **RootId** (`root_id.dfy`). This is the `setID` sanitiser.
- **RoundTrip** (`round_trip.dfy`). This joins the steps together on the
  GraphQL path, where the merged list goes straight back to
  `__reassembleTree`. For a document whose elements have usable `words` and
  distinct labels, it proves that flattening and reassembling gives back the
  document's own trees.

Behaviours of the source worth noting:

- A tuple whose parent name matches no tuple is kept at the top level, not
  dropped. The failed `lut` lookup throws before `splice` runs, and the
  `catch` swallows the error.
- Index segments are four digits wide (`"000" + i`, `"00" + i`, `"0" + i`, or
  `i`). The parent lookup `prop.substring(0, modKey.length - 13)` therefore
  finds the parent only below index 10000.
- The zero-match check runs before the empty-term check. A `lesser` term
  without digits over non-negative sizes therefore shows `"No matching
  tuples!"`, not the tree.
- The `equal` callback overwrites the term with its collapsed form on the text
  path, and the collapsed term is what the query field stores.
- A text term with an empty sub-term, such as `"a,"`, matches every tuple.
- Children come out in the reverse of their sorted order.
- A node without children has no `children` key in the source. The model gives
  it an empty sequence.

## Model

| member | source | states |
|---|---|---|
| Flatten.Put | src/App.js:309 | Assigning an absent key appends it at the end. Assigning a present key keeps the object's size and the order of its keys. |
| Flatten.GetPut | src/App.js:309 | Reading an object back after `d[k] = v` gives `v` at `k` and the old value at every other key. |
| Flatten.GetAppend | src/App.js:325 | A lookup in a concatenated dictionary finds the first part's entry when there is one. |
| Flatten.Find | src/App.js:324 | The lookup position holds the key, and no earlier position does. The result is -1 exactly when the key is absent. |
| Flatten.LabelAlongJoin | src/App.js:324-328 | Along a line of elements with non-empty `words`, the label is the words joined with " > ". |
| Flatten.ChainRestarts | src/App.js:324-328 | A missing or empty ancestor label restarts the chain: the next label is just that element's own `words`. |
| Flatten.SegmentDigits | src/App.js:312-322 | Below 10000 the index segment is exactly four decimal digits whose value is the index. |
| Flatten.SegmentLong | src/App.js:320-322 | From 10000 on the segment is the plain decimal form, at least five characters long. |
| Flatten.SegmentOrder | src/App.js:312-323 | Below 10000, string order of segments is index order, and equal segments mean equal indexes. |
| Flatten.ElementKeyOrder | src/App.js:323 | For two distinct indexes below 10000 under one path, one element key is string-less than the other exactly when its index is smaller. |
| Flatten.ElementKeyInjective | src/App.js:323 | Distinct indexes below 10000 give distinct element keys. |
| Flatten.ParentKeyOf | src/App.js:323-325 | Dropping 13 characters from the key length finds the parent's key exactly when the index is below 10000. |
| Flatten.TopParentKey | src/App.js:324-327 | For a top-level element the parent lookup reads the empty key. No label is ever stored under that key, so the lookup finds nothing and the label is just `words`. |
| FlattenDocument.FlattenDocumentRecords | src/App.js:303-359 | `__merge(__flatten(doc))` is one record per element in document pre-order. Each record's name is the chained label, and its size is the element's own `num_finalgood`, or undefined when it has none. |
| FlattenDocument.ExpectedAlong | src/App.js:311-330 | Along a line of ancestors' words, element `i` contributes its own record first: its key, the joined label and its own size. Its descendants' records follow, then its later siblings'. |
| FlattenDocument.WalkItemsSpec | src/App.js:311-330 | Walking elements `i..` of an array appends exactly their slots in pre-order. It stores each element's size under its key and changes no number outside their subtrees. |
| FlattenDocument.ElementSpec | src/App.js:323-329 | One element's walk appends its own label and then its descendants'. All of their keys lie under the element's key. The parent label and the later siblings' keys are left untouched. |
| FlattenDocument.ElementWalk | src/App.js:331-336 | Walking an element's object visits the `synset` array under `key.synset` and then the attributes. Only `num_finalgood` stores a number, under the element's own key. |
| FlattenDocument.FieldPathMentions | src/App.js:307-309 | Under a path without 'u', a field path contains "num_finalgood" exactly when the field name does. |
| FlattenDocument.SizePathKey | src/App.js:309 | Removing ".num_finalgood" from an element's own size path gives back the element's key. |
| Tuples.DecodeAsWritten | src/App.js:293-297 | A stored string decodes with an undefined size exactly when it holds no "***". |
| Tuples.RoundTripAsWritten | src/App.js:251 | `decode(encode(t))` gives `t` back when the name holds no "***" and does not end in '*', and the size holds no "***". |
| Tuples.StarNameBreaksAsWritten | src/App.js:293-297 | ("a*", "5") is stored as "a****5" and read back as ("a", "*5"). |
| Tuples.Decode | src/App.js:293-297 | The corrected decoder splits at the last "***". The size is undefined exactly when there is no separator. |
| Tuples.RoundTrip | src/App.js:251 | With the corrected decoder, `decode(encode(t)) == t` for every name, provided the size holds no '*'. |
| Tuples.AssembleAsWrittenRoundTrip | src/App.js:290-300 | Reading the stored strings back with the source's decoder gives every saved tuple back, in order. This holds when no name contains "***" or ends in '*', and no size contains "***". |
| Tuples.AssembleStarName | src/App.js:290-300 | A saved ("a*", "5") reads back as ("a", "*5") with the source's decoder, and as ("a*", "5") with the corrected one. |
| Tuples.AssembleRoundTrip | src/App.js:290-300 | With the corrected decoder, every saved list reads back as itself, in order, for any names, given sizes without '*'. |
| Tuples.SaveBatch | src/App.js:242-255 | `save(start)` writes tuples `start..start+24`, stopping at the end of the list. Each request has the tuple's index as its id and its encoded form as its value. |
| Tuples.Batches | src/App.js:199-205 | The writes form ceil(n/25) batches (one batch for an empty list). Each batch holds at most 25 requests. Tuple `i` is written exactly once, in batch `i / 25` at position `i % 25`, and nothing else is written. |
| Reassemble.NameParts | src/App.js:452-460 | The parent id is the text before the last ">" trimmed, or "root" when there is no ">". The display name is the text after the last ">" trimmed. |
| Reassemble.ParentPathShorter | src/App.js:453-458 | A parent id derived from a ">" is strictly shorter than the name. |
| Reassemble.ParentPathDiffers | src/App.js:453-458 | Only "root" is its own parent id. |
| Reassemble.DecomposeChained | src/App.js:451-464 | For a trimmed `p` and a `w` without ">", `p > w` has parent id `p` and display name `w` trimmed. |
| Reassemble.ChainedLabelParent | src/App.js:325 | A label the flattener chains decomposes into its parent's label and its own trimmed words. |
| Reassemble.RankDecreases | src/App.js:429-430 | The parent id has a lower depth than the id, which bounds the swaps of the sort. |
| Reassemble.DecomposeAll | src/App.js:451-465 | Each tuple yields one entry, in order. Every entry's parent id depends only on its own id, which is what the sort needs to terminate. The entries' (name, size) labels are exactly the tuples' (display name, size) pairs that must come back in the tree. |
| Reassemble.FirstWithId | src/App.js:429 | `findIndex`: the first entry with the id, or -1 when no entry has it. |
| Reassemble.SwapKeepsParentBefore | src/App.js:430 | A swap at `i` with a later position keeps every earlier entry behind its parent. |
| Reassemble.HoistParent | src/App.js:429-431 | The `while` loop terminates and permutes the list, leaving earlier entries in place. Entry `i` ends behind its parent, and an entry already behind its parent is not touched. |
| Reassemble.Sort | src/App.js:426-435 | `sort` returns a permutation in which every entry's parent comes first, and an input already parent-first is returned unchanged. `lut` maps every id to the last position holding it. |
| Reassemble.MoveKeepsMembers | src/App.js:440-441 | Moving a tree under another keeps every entry of the forest exactly once. |
| Reassemble.Attach | src/App.js:437-444 | The backward pass keeps every entry exactly once. For parent-first entries with distinct ids it builds the reference `Forest`. |
| Reassemble.StayStep | src/App.js:438-442 | An entry with parent id "root", or with a parent that is not in `lut`, stays at the top and the pass continues. |
| Reassemble.ForestShape | src/App.js:437-444 | In the forest every child sits under the node whose id is its parent id. A tree is at the top only when its parent id is "root" or names no entry. |
| Reassemble.SiblingsReversed | src/App.js:440-441 | Children come out last first: children x and y of "a", listed in that order, end up as [y, x]. |
| Reassemble.StripLabels | src/App.js:445 | Dropping `id` and `pid` keeps every node's name and size, in pre-order. |
| Reassemble.PreOrderForest | src/App.js:424-446 | A forest listed in pre-order, with distinct ids none of which is "root", is parent-first. `__construct` rebuilds it exactly, except that every list of children is reversed. |
| Reassemble.ReassembleTree | src/App.js:449-467 | Every tuple comes back exactly once as a (display name, size) node. With distinct names, in any input order, the result is the stripped reference forest of some parent-first order of the tuples. When the tuples already arrive parent-first, it is the forest of that very order. |
| Search.Run | src/App.js:476-567 | The searched field stores the term and the other two are cleared. The sentinel is shown exactly when nothing matches. The tree is shown exactly when something matches and the stored term is empty. Otherwise the result is the matches, as a stable permutation in descending size. |
| Search.EqualFilter | src/App.js:485-509 | The `equal` filter keeps exactly the matching tuples. It leaves the term collapsed once a tuple took the text path, and unchanged otherwise. |
| Search.TestOne | src/App.js:487-507 | A numeric term keeps a tuple whose size equals the whole term as a number. Any other term is collapsed and keeps a tuple whose name holds it or one of its sub-terms. |
| Search.AnyTermIn | src/App.js:502-507 | The sub-term loop returns true exactly when some sub-term occurs in the name. |
| Search.MatchesCollapsed | src/App.js:490 | Collapsing a text term does not change what it matches, whether it is numeric, or its collapsed form. |
| Search.CollapseIdempotent | src/App.js:490 | Collapsing white-space runs twice gives the same as once. |
| Search.CollapseSingleSpaced | src/App.js:490 | A collapsed string has no two white-space characters in a row. |
| Search.ParseIntCollapse | src/App.js:487-490 | Collapsing white space does not change `parseInt` of the term. |
| Search.SubTerms | src/App.js:495-501 | Sub-terms split on ">" if present, else on ",", else on " ". There is always at least one. |
| Search.BoundIsNumber | src/App.js:477 | After the non-digits are removed, `+term` is the value of the digits, and 0 when there are none. |
| Search.SortDescending | src/App.js:576-581 | The sort returns a permutation in non-increasing size that keeps the input order among equal sizes. |
| Search.StableOrderUnique | src/App.js:576-581 | Two lists in descending size with the same tuples of every size, in the same order, are equal. So the stable sort's result is unique. |
| Search.InsertDescending | src/App.js:577-580 | Inserting after every tuple at least as large keeps the list descending. |
| Search.InsertOfSize | src/App.js:577-580 | Inserting a tuple appends it to the run of its size and leaves the other runs alone. |
| Search.EmptyEqualShowsTree | src/App.js:510-513 | An empty `equal` term matches every tuple and is stored empty, so a non-empty list shows the whole tree. |
| Search.EmptyLesserShowsSentinel | src/App.js:528-532 | A `lesser` term without digits reads as 0, so over non-negative sizes nothing matches and the sentinel is shown. |
| Search.NumericTermWhole | src/App.js:487-488 | "12abc" is numeric but matches no tuple, because `+"12abc"` is NaN. "12" matches exactly size 12. |
| Search.TrailingCommaMatchesAll | src/App.js:495-506 | "a," splits into ["a", ""], and the empty sub-term matches every name. |
| Strings.JoinSplit | src/App.js:454-455 | Joining the pieces of a split with the separator gives back the string. |
| Strings.SplitPiecesLackSeparator | src/App.js:452 | No piece of a split holds the separator. |
| Strings.SplitOnCharLastPiece | src/App.js:460 | The last piece of `s.split(c)` is what follows the last `c`. |
| Strings.SplitOnCharInit | src/App.js:454-455 | All pieces but the last, rejoined with `c`, are what precedes the last `c`. |
| Strings.TrimPadded | src/App.js:455 | `trim` removes white space at both ends only: a trimmed string padded with white space trims back to itself. |
| Strings.DigitsOnlyKeeps | src/App.js:477 | Removing the non-digits keeps a character exactly when it is a digit, in place, whatever surrounds it. |
| Strings.DigitsOnlyAppend | src/App.js:477 | Removing the non-digits from a concatenation gives the concatenation of the two parts with their non-digits removed. |
| Strings.LeadingDigits | src/App.js:621 | The digits `parseInt` reads are the longest prefix made only of digits. The character after them, if any, is not a digit. |
| Strings.Dec | src/App.js:250 | `"" + n` is a digit string without a leading zero whose value is `n`. |
| Strings.DecLength | src/App.js:314-321 | `"" + n` has 1, 2, 3 or 4 characters on the ranges the segment padding distinguishes, and at least 5 from 10000 on. |
| Strings.LexLessDigits | src/App.js:323 | For digit strings of equal length, string order is numeric order. |
| RootId.SetIdMeaning | src/App.js:619-627 | The field holds an id exactly when one of the first five digits of the input is not '0'. The id is their value, between 1 and 99999, and otherwise the button is disabled. |
| RootId.SetIdDigitsOnly | src/App.js:619 | Only the digits of the input matter. |
| RootId.SetIdRoundTrip | src/App.js:619-627 | Every id from 1 to 99999, typed as its decimal form, is accepted as itself. |
| RootId.SetIdFiveDigits | src/App.js:620 | Digits beyond the fifth are ignored: "1234567" gives 12345. |
| RootId.SetIdDisabled | src/App.js:621-624 | "000" and an input without digits disable the button. |
| RootId.Kept | src/App.js:619-620 | The digits kept are the input's first five digits, in order, or all of them when there are fewer. |
| RoundTrip.FlattenThenReassemble | src/App.js:708-720 | Flattening a document, merging, and reassembling the list gives back the document's trees. Each node is named by its element's `words` and sized by its `num_finalgood`. Top-level trees come in document order, and every list of children is reversed. |
| RoundTrip.FlatListParentFirst | src/App.js:708-709 | The merged list of a document decomposes into entries with distinct ids listed parents first. Their `__construct` forest is the document's own tree of entries, with children reversed. |
| RoundTrip.NodesInOrder | src/App.js:311-330 | The flat records are the document's tree of entries listed in pre-order, element by element. |
| RoundTrip.NodesUnder | src/App.js:452-458 | In the document's tree of entries, every child's parent id is its parent element's label, and every top entry's parent id is "root". |
| RoundTrip.ChildLabel | src/App.js:325 | A label chained from usable `words` decomposes back into the parent's label as parent id and the `words` as display name. Children can chain onto it in turn. |
| RoundTrip.DistinctEntries | src/App.js:453-464 | Distinct labels other than "root" give entries with distinct ids other than "root". |
| RoundTrip.StripNodes | src/App.js:445 | The reversed entry trees under an element, stripped of `id` and `pid`, are its children's trees, last first. |

## Left out

- Fetching credentials, base64 decoding, the GraphQL client, the AWS
  configuration, and the `batchWrite`/`scan` calls are left out. They are
  network I/O. Only the stored string form and the batch layout are modelled.
- The `wipe` loop (src/App.js:210-234) is left out. It only issues delete
  requests.
- `__scrape` and `__xmlToJSON` (src/App.js:362-421) are left out. They do
  fetch, XML parsing and asynchronous recursion whose result depends on
  timing. The flattener's input is an arbitrary value instead, and
  FlattenDocument takes an arbitrary element tree.
- `setTimeout` sequencing, React `update`/`setState`, `render`,
  `__formatJSON` and `__displayJSON` are left out. They are UI plumbing with
  no effect on the values modelled.
- Sizes in Search are integers, and `+s` is modelled only for optionally
  signed decimal integers, because floating point is out of scope. Numbers
  with a fraction or exponent, `Infinity` and hexadecimal literals read as
  NaN in the model.
- White space is ASCII only (space, tab, newline, vertical tab, form feed and
  carriage return). The Unicode spaces that `trim` and `\s` also accept are
  not modelled.
- Reassemble.ReassembleTree does not model undefined names (on which `split`
  throws) or non-string `words`. Names are strings throughout.
- Reassemble.Sort requires that every parent id is derived from its id, as
  `__reassembleTree` builds them. For hand-made entries with a parent cycle
  the source `while` loop would not terminate.
- Reassemble.Attach is proved equal to the reference forest only for entries
  with distinct ids in parent-first order. The merged list on the GraphQL
  path (src/App.js:708-720) is in that order. The DynamoDB path
  (src/App.js:687) reads tuples back in `scan` order, so there
  Reassemble.ReassembleTree relies on its sort, which yields some
  parent-first order. For entries with repeated ids only "every entry exactly
  once" is proved.
- RoundTrip.FlattenThenReassemble needs every element's `words` to be present,
  non-empty, trimmed and free of '>'. It also needs the chained labels to be
  distinct and never "root". Otherwise `__reassembleTree` splits or trims a
  label differently from how it was chained, or merges two nodes. The GraphQL
  save and `JSON.parse` are taken to give the merged list back unchanged.
- Reassemble.Tree gives a childless node an empty `children` sequence, where
  the source leaves the key out.
- FlattenDocument.FlattenDocumentRecords assumes fewer than 10000 children
  per element, distinct attribute names other than `synset`, and attribute
  names that either are `num_finalgood` or do not contain it. Beyond 10000
  children, Flatten.ParentKeyOf shows the parent lookup fails.
- Search.SortDescending models `Array.prototype.sort` as stable, which it is
  from ECMAScript 2019 on.

## Findings

| source | as written | input that shows it | evidently intended | confidence | as-written member | corrected member |
|---|---|---|---|---|---|---|
| src/App.js:251, src/App.js:293-297 | The tuple is stored as `name + "***" + size` and read back with `split("***")`, which splits at the first occurrence. A name ending in '*' therefore lends its stars to the size. | ("a*", "5") is stored as "a****5" and read back as name "a", size "*5". | Every stored tuple reads back as written. Splitting at the last "***" does this for any name, given a size without '*'. | not executed | Tuples.StarNameBreaksAsWritten | Tuples.RoundTrip |
