# Wire-schema codec

A model of the text codec for CPU circuit layouts in `src/cpu/ImportExport.tsx`.
A layout is a list of placed components and a list of wire graphs. The codec
writes it as a line-oriented text format and reads such text back.

- `exportData` writes the header `#wire-schema 1`. It then writes one line
  `C <id> <defId> p:<x>,<y>` per component and one line
  `W <id> ns:[<node>|<node>|...]` per wire, each ended by a newline. The
  descriptor of node `j` is `x,y`, then the node's edges that point below
  `j`, then ` p:<component>/<port>` when the node is attached to a
  component port.
- `parseLine` splits a line with one global regular expression into parts
  `{text, label, value}`. Here it is a hand-written lexer with the same
  matching rules: leading whitespace with backtracking, an optional `\w+:`
  label, a bracketed list or a bare value, and a one-character skip where no
  match starts.
- `importData` checks the header and the version, skips blank and `#` lines,
  and decodes `C` and `W` lines. It recovers line by line and collects one
  issue per problem through `makeIssue`. At the end it re-exports what it
  decoded and reports an issue on line 1 if that differs from the input.

The modules follow the program's structure:

- `Text`: JavaScript string primitives (`\s`, `\w`, `trim`, `split`, `join`).
- `Decimal`: number printing, and `parseInt`/`parseFloat` on integral numerals.
- `CpuModel`: the layout datatypes.
- `Exporter`: `exportData`.
- `Tokenizer`: `parseLine`.
- `Importer`: `importData`.
- `ImportRules`: the error-recovery rules, one lemma per rule.
- `RoundTrip`: the headline theorem, that importing an export raises no issue.
- `Findings`: two inputs on which the code as written throws.

Coordinates and edges are unbounded integers. The importer's result holds only
the issues, as in the code. The decoded layout is available separately as
`ImportRules.DecodedLayout`, so the round trip can be stated.

The header comment of the file (lines 4-12) and its example (lines 14-32)
describe the format only in outline. The model follows the code on the points
that comment leaves open:

- A malformed `p:` reference on a node raises an issue and leaves any earlier
  well-formed reference of that node in place (lines 197-208).
- A `W` line needs only three parts of any kind (line 163). Every `ns` part,
  wherever it stands on the line, adds nodes (lines 169-170).
- A `C` line adds one component for each well-formed `p:` part after its
  third part, so a line can add several components or none (lines 134-157).
- A file holding a lone `C` line and a valid component line gets two issues:
  one for the short line, and one from the self-check, because the short line
  is not re-exported (lines 128-131 and 222-225).
- Two inputs make the code throw instead of reporting an issue (see
  "## Findings").

## Model

| member | source | states |
|---|---|---|
| Exporter.ExportLines | src/cpu/ImportExport.tsx:37-62 | split on newlines, the output is the header, then one `C` line per component in stored order, then one `W` line per wire in stored order, then the empty piece left by the final newline; so it has 1 + comps + wires lines |
| Exporter.BackEdgesMeaning | src/cpu/ImportExport.tsx:52 | every edge written for node `j` is below `j`; an edge is written exactly when it is stored and below `j`; a node whose edges are all below `j` keeps all of them |
| Exporter.BackEdgesAppend | src/cpu/ImportExport.tsx:52 | the edge filter distributes over concatenation, so the written edges keep their stored order |
| Exporter.NodesFromIsJoin | src/cpu/ImportExport.tsx:45-58 | the node list of a wire is its descriptors joined by `|`, with no separator before node 0 |
| Exporter.NodesFromTail | src/cpu/ImportExport.tsx:49-51 | from node `j > 0` on, the list starts with a `|` before node `j`'s descriptor |
| Exporter.WireLineHasNo | src/cpu/ImportExport.tsx:45-59 | a wire line contains no character outside the grammar's own characters, the digits and the wire's identifiers |
| Exporter.CompLineHasNo | src/cpu/ImportExport.tsx:41 | a component line contains no character outside the grammar's own characters, the digits and the component's identifiers |
| RoundTrip.CanonExports | src/cpu/ImportExport.tsx:35-63 | export ignores forward edges and non-port references: the layout with them removed exports to the same text |
| Decimal.IntToString | src/cpu/ImportExport.tsx:41 | a number is written as a non-empty run of digits and `-`, ending in a digit, starting with `-` exactly when it is negative |
| Decimal.JsParseIntOfString | src/cpu/ImportExport.tsx:187 | `parseInt` reads a written integer back whatever follows it, unless that continues the number |
| Decimal.JsParseFloatOfString | src/cpu/ImportExport.tsx:141-142 | `parseFloat` reads a written integer back |
| Decimal.ParseSkipsWs | src/cpu/ImportExport.tsx:141-142 | both parsers skip leading whitespace |
| Decimal.ParseFails | src/cpu/ImportExport.tsx:143 | the model's integral-only `parseFloat` gives NaN exactly when no digit follows the whitespace and the sign; without a hexadecimal prefix `parseInt` agrees with it |
| Tokenizer.ValueLenMeaning | src/cpu/ImportExport.tsx:103 | the value group matches a list closed by its first `]` with at least one character inside, or else a longest run of bare-value characters, and it fails exactly when neither starts here |
| Tokenizer.TryAtMeaning | src/cpu/ImportExport.tsx:103 | any label is a `\w+` word; whenever a word, a `:` and something the value group matches follow one another, the match is labelled by that word; otherwise it is the value group alone, unlabelled, or no match when that fails |
| Tokenizer.ParseSpace | src/cpu/ImportExport.tsx:103 | a space before a match is consumed by that match |
| Tokenizer.PartTok | src/cpu/ImportExport.tsx:106-110 | a part's text is the trimmed match, and a list value loses its brackets |
| Tokenizer.ParseTok | src/cpu/ImportExport.tsx:101-113 | a bare value, `label:value` or `label:[list]` followed by the end or a space is read as exactly its own part, then the rest of the line |
| Tokenizer.ParseSpaceToks | src/cpu/ImportExport.tsx:101-113 | space-separated tokens are read back one part each, in order |
| Tokenizer.EmptyListIsBare | src/cpu/ImportExport.tsx:103 | `label:[]` is not a list: the expression backtracks and reads the bare word `label` |
| Importer.CompParts | src/cpu/ImportExport.tsx:133-158 | each part after the third adds exactly one component or one issue, and no wire |
| Importer.DecodeEdges | src/cpu/ImportExport.tsx:184-191 | each edge field adds exactly one edge or one issue |
| ImportRules.LineIssuesAt | src/cpu/ImportExport.tsx:80-83 | an issue raised on line index `idx` has line number `idx + 1`, the raw line as content and no column |
| ImportRules.AssembleIssues | src/cpu/ImportExport.tsx:117-219 | every issue of the body names its line by number `idx + 1` and raw text |
| ImportRules.BodyIssues | src/cpu/ImportExport.tsx:117-219 | every issue the body lines raise names one of those lines by number and raw text |
| ImportRules.ImportIssues | src/cpu/ImportExport.tsx:77-83 | `issues` is absent or non-empty, and every issue names a line of the input by number and raw text |
| ImportRules.ImportClean | src/cpu/ImportExport.tsx:77-225 | `issues` is absent exactly when the header and version are accepted, no body line raises an issue, and re-exporting the decoded layout gives back the input |
| ImportRules.HeaderRejected | src/cpu/ImportExport.tsx:85-88 | a first line not starting with `#wire-schema` gives exactly one issue, on line 1, and no body line is read |
| ImportRules.VersionRejected | src/cpu/ImportExport.tsx:89-93 | a version other than 1 gives exactly one issue, on line 1, and no body line is read |
| ImportRules.VersionOf | src/cpu/ImportExport.tsx:89 | the version is `parseInt` of the word after `#wire-schema ` |
| ImportRules.VersionTwoRejected | src/cpu/ImportExport.tsx:89-93 | `#wire-schema 2` followed by anything gives exactly the version issue |
| ImportRules.SkippedLine | src/cpu/ImportExport.tsx:118-123 | a blank or `#` line adds nothing, and the lines after it keep their own numbers |
| ImportRules.BodyAppend | src/cpu/ImportExport.tsx:117-219 | lines are decoded independently: the result for two runs of lines is the two results concatenated, so a bad line never stops later lines |
| ImportRules.UnexpectedLine | src/cpu/ImportExport.tsx:215-217 | a kept line whose first part is neither `C` nor `W` adds exactly one issue, naming its first character, and nothing else |
| ImportRules.CompPartsRules | src/cpu/ImportExport.tsx:133-158 | the components added are one per well-formed `p:` part, in the order of those parts: component `k` stands at the position of the `k`-th well-formed `p:` part, is named by the line's id, and has its definition, zero size and no ports |
| ImportRules.CompLineRules | src/cpu/ImportExport.tsx:127-160 | a `C` line with fewer than 3 parts adds one issue and nothing else; otherwise it adds one component or one issue per later part, and no wire; component `k` stands at the position of the `k`-th well-formed `p:` part |
| ImportRules.NodeStepNumbered | src/cpu/ImportExport.tsx:170-210 | a descriptor adds a node exactly when it is kept; the node carries the kept position, edges and reference and is numbered by how many nodes the wire already has; the earlier nodes are untouched, and the descriptor's messages follow the earlier ones |
| ImportRules.KeptNodes | src/cpu/ImportExport.tsx:170-211 | a node list yields exactly its kept descriptors, in order, numbered on from the nodes already there; dropped descriptors add no node; the messages of all descriptors are kept in order |
| ImportRules.NsPartsAsOneList | src/cpu/ImportExport.tsx:169-173 | the descriptors of all `ns` parts are decoded as one list, in the order the parts stand on the line |
| ImportRules.DecodeNodesNumbered | src/cpu/ImportExport.tsx:170-211 | the nodes of a wire are numbered 0, 1, 2, ... by position among the kept nodes |
| ImportRules.NsPartsNumbered | src/cpu/ImportExport.tsx:167-212 | the numbering by position holds across several `ns` parts |
| ImportRules.CleanNodes | src/cpu/ImportExport.tsx:170-211 | descriptors that all decode without issue give exactly those nodes, in order, numbered after the nodes already there |
| ImportRules.OtherPartsIgnored | src/cpu/ImportExport.tsx:169-170 | parts not labelled `ns` add neither nodes nor issues |
| ImportRules.WireLineRules | src/cpu/ImportExport.tsx:162-214 | a `W` line with fewer than 3 parts adds one issue and nothing else; otherwise it adds exactly one wire, named by its second part, holding the kept descriptors of all its `ns` parts in order, numbered by position, with the messages of all descriptors in order |
| ImportRules.WireWithoutNodes | src/cpu/ImportExport.tsx:162-214 | a `W` line with no `ns` part still adds its wire, with no nodes and no issue |
| ImportRules.NodeRules | src/cpu/ImportExport.tsx:173-210 | a descriptor is dropped with exactly one issue unless its first part starts with two numbers; a kept node has those numbers as position, its numeric edge fields as edges and the last well-formed reference, with one issue per bad edge field and per malformed `p:` |
| ImportRules.BadEdgeDropped | src/cpu/ImportExport.tsx:184-189 | an edge field that is not a number is dropped with one issue, and the fields around it are read as if it were absent |
| ImportRules.EdgesRead | src/cpu/ImportExport.tsx:184-191 | edge fields that are all numbers are kept in order without issue |
| ImportRules.RefLastWins | src/cpu/ImportExport.tsx:197-208 | the reference is set by the last `p:` part that splits on `/` into two fields, and each other `p:` part raises one issue |
| ImportRules.EdgesOfNumerals | src/cpu/ImportExport.tsx:184-191 | written edge indices are read back in order without issue |
| RoundTrip.PosDecodes | src/cpu/ImportExport.tsx:137-147 | a written position `x,y` is read back as the same point |
| RoundTrip.CompLineDecodes | src/cpu/ImportExport.tsx:127-158 | the line written for a component is read back as that component, with zero size and no ports, without issue |
| RoundTrip.NodeDecodes | src/cpu/ImportExport.tsx:173-210 | a written descriptor is read back as its node's position, back-edges and port reference, without issue |
| RoundTrip.NodesDecode | src/cpu/ImportExport.tsx:170-211 | a written node list is read back as the wire's nodes, numbered by position, without issue |
| RoundTrip.WireLineDecodes | src/cpu/ImportExport.tsx:162-214 | the line written for a wire is read back as that wire, without issue |
| RoundTrip.FileDecodes | src/cpu/ImportExport.tsx:117-219 | the body of an export decodes to its components and wires, in order, without issue |
| RoundTrip.HeaderAccepted | src/cpu/ImportExport.tsx:85-93 | the header export writes passes both header checks |
| RoundTrip.ImportOfExport | src/cpu/ImportExport.tsx:222-225 | for a layout whose identifiers are non-empty, free of whitespace, `[`, `]`, `:`, and whose port references also avoid `/` and `|`, importing its export raises no issue, and the decoded layout is the original with forward edges and non-port references removed |
| Findings.LineAgrees | src/cpu/ImportExport.tsx:117-217 | on a line where the code as written does not throw, it decodes what the model decodes |
| Findings.ImportAgrees | src/cpu/ImportExport.tsx:76-235 | on an input where the code as written does not throw, it returns what the model returns |
| Findings.LineReportsThrow | src/cpu/ImportExport.tsx:124-174 | every line on which the code as written throws gets at least one issue in the model |
| Findings.ImportReportsThrow | src/cpu/ImportExport.tsx:76-235 | every input on which the code as written throws gets issues in the model |
| Findings.ColonLine | src/cpu/ImportExport.tsx:124-127 | the line `:` makes the code throw; the model reports it as a line with an unexpected first letter |
| Findings.DanglingWire | src/cpu/ImportExport.tsx:170-174 | a wire line whose `ns` list is one clean descriptor followed by `|` makes the code throw; the model keeps the node and reports the empty descriptor |
| Findings.DanglingBar | src/cpu/ImportExport.tsx:170-174 | the same for the descriptor export writes for any one node, such as `W a ns:[1,2|]` |

## Left out

- `console.log` calls (lines 226-227 and 231): logging with no effect on the result.
- The `lines.length === 0` test (line 85) can never hold: splitting always gives at least one piece.
- The optional column of an issue: the code never fills it in, so it is always `None`.
- Issue texts are kept as the code writes them. This includes "Invalid wire node: c: must have 2 parts", which the code raises for a malformed `p:` part.
- Importer.MsgUnexpected: names the line's first character as a whole character. JavaScript's `line[0]` is one UTF-16 code unit, so for a line starting outside the Basic Multilingual Plane the code puts a lone high surrogate in the issue text, where the model puts the whole character.
- `Vec3`: positions are 2D integer points, because the format writes no third coordinate. A component's ports are kept as identifiers only; the codec writes `[]` for them.
- Reference kinds other than a component port are one variant, `OtherRef`. The reference-kind enumeration is not part of this model. Export drops every such kind.
- The code returns only the issues. The layout it assembles is discarded. `ImportRules.DecodedLayout` exposes it so the round trip can be stated.
- Decimal.JsParseFloat: reads the integral prefix only, so `1.5` is read as 1. JavaScript's `parseFloat` also reads fractions, exponents and `Infinity`. On such input the model disagrees with the code. It decodes an integer position, and the self-check then reports a mismatch the code would not report.
- Decimal.ParseFails: its NaN condition is that of the integral-only model of `parseFloat`. JavaScript's `parseFloat` also reads `.5`, `-.5` and `Infinity` as numbers, which the model rejects.
- Decimal.IntToString: writes every integer in plain decimal. JavaScript writes magnitudes of 1e21 and above in exponent form, and integers beyond 2^53 lose precision.
- Decimal.DigitValue: gives 0 for a character that is not a digit. It is only ever applied to digits.
- Tokenizer.ParseLine: its own contract only bounds the number of parts. The regular expression's behaviour is stated by lemmas on written tokens, on `label:[]`, and on the value group. Arbitrary text is covered by the function's definition, with no separate characterisation.
- RoundTrip.ImportOfExport: the identifier conditions are sufficient, not necessary. Some other layouts also survive the round trip.

## Findings

| source | as written | input that shows it | evidently intended | confidence | as-written member | corrected member |
|---|---|---|---|---|---|---|
| src/cpu/ImportExport.tsx:124-127 | reads the text of the first part without checking that the line has one, and throws when it has none | the line `:` after a valid header | report the line like any other line with an unexpected first letter, and carry on | not executed | Findings.ColonLine | ImportRules.UnexpectedLine |
| src/cpu/ImportExport.tsx:170-174 | reads the text of the first part of each node descriptor without checking that it has one, and throws on an empty descriptor | the line `W a ns:[1,2\|]`, whose trailing `\|` leaves an empty descriptor | drop the empty descriptor with the too-few-numbers issue, as for any descriptor without two numbers | not executed | Findings.DanglingBar | ImportRules.NodeRules |
