# Lua obfuscator engine, modelled in Dafny

This project models `LuaObfuscator`, the engine of a browser-based Lua and Roblox
obfuscator. The engine holds three things:

- a registry of synthetic names issued so far (`usedNames`);
- two fixed reserved sets: the Lua keywords and the Roblox globals;
- a random source.

`obfuscate` threads one text buffer through seven stages in a fixed order:

1. protection layers put in front: anti-debug, then runtime checks, then environment detection;
2. variable renaming;
3. string-literal encoding;
4. control-flow noise lines;
5. dead-code lines;
6. the encryption wrapper, then the self-modifying wrapper;
7. compaction.

It then puts a two-line header in front of the result.

The modules follow the engine's parts:

- `Text`: JavaScript string operations on `seq<char>`: `trim`, `split`, `join`, `includes`, decimal printing.
- `Wrappers`: `Option`, and `Outcome`, which carries the failure of the name generator.
- `Reserved`: the two reserved sets, verbatim.
- `Entropy`: `Math.random` as a class over a fixed, caller-supplied sequence of draws with a cursor.
- `Encoders`: `simpleXorEncrypt` with JavaScript's 32-bit `^`, the 100-character chunker and the three string-literal techniques.
  Each comes with the reading that gets its input back.
- `Lexer`: `extractVariables` and `extractStrings`. Their regular-expression `exec` loops are hand-written scanners with the same `lastIndex` behaviour.
- `Rewrite`: the global replaces `\bname\b` and `["']name["']`, and JavaScript's insertion-ordered `Map`.
- `Lines`: the two line-insertion passes, as an expansion of the line list.
- `Fragments`: the five protection templates, the dead-code snippets, `isRobloxScript` and the header.
- `Compaction`: the compaction as the source writes it, and a corrected compaction (see Findings).
- `Obfuscator`: the `LuaObfuscator` class. Its methods update `usedNames` and the random cursor. A ghost `issued` sequence records the names in the order they were issued.
  The class also holds the predicates that say what each stage did (`Layered`, `Renamed`, `LiteralsEncoded`, `FlowInserted`, `DeadInserted`, `Encrypted`, `SelfModified`, `Wrapped`, `StagesDone`).

## Model

| member | source | states |
|---|---|---|
| Obfuscator.LuaObfuscator.constructor | src/lib/obfuscator.ts:14-38 | a new engine has an empty registry and the standard keyword and Roblox-global sets |
| Obfuscator.NameCharsAreWordChars | src/lib/obfuscator.ts:44 | the name alphabet has 63 characters, all in `[a-zA-Z0-9_]` |
| Obfuscator.CandidateBody | src/lib/obfuscator.ts:45-49 | the drawn body is 6 to 11 characters of `[a-zA-Z0-9_]` |
| Obfuscator.DrawnChars | src/lib/obfuscator.ts:45-49 | the first draw fixes the length 6 + floor(r*6); later draw i picks alphabet[floor(r*63)] for character i |
| Obfuscator.LuaObfuscator.DrawChars | src/lib/obfuscator.ts:47-49 | the character loop consumes exactly `count` draws; character j is picked by draw j |
| Obfuscator.LuaObfuscator.DrawCandidate | src/lib/obfuscator.ts:45-53 | one attempt yields `Candidate(prefix, body)` and consumes 1 + the body's length in draws |
| Obfuscator.CandidateShape | src/lib/obfuscator.ts:50-53 | every candidate starts with a letter or `_`; with the default prefix it is `_` plus the body, a Lua identifier of 7 to 12 characters |
| Obfuscator.SynthNameIsIdentifier | src/lib/obfuscator.ts:44-53 | an issued name is a Lua identifier and contains no line feed |
| Obfuscator.LuaObfuscator.GenerateObfuscatedName | src/lib/obfuscator.ts:40-58 | on success the name was not in `usedNames` and is not reserved; `usedNames` grows by exactly that name; the name is a candidate of the prefix; on exhaustion nothing changes; the registry invariant is kept |
| Obfuscator.LuaObfuscator.FreshName | src/lib/obfuscator.ts:40-58 | with the default prefix the fresh name is also `_` plus 6 to 11 word characters |
| Obfuscator.LuaObfuscator.FreshNames3 | src/lib/obfuscator.ts:69-71 | three successive fresh names, the next three entries of the issue order |
| Encoders.Codes | src/lib/obfuscator.ts:149 | element i is the code of character i |
| Encoders.ToInt32 | src/lib/obfuscator.ts:63 | the result is in the signed 32-bit range and has the same 32-bit pattern as the operand |
| Encoders.JsXor | src/lib/obfuscator.ts:63 | JavaScript's `^` lands in the signed 32-bit range |
| Encoders.XorSelfInverse | src/lib/obfuscator.ts:63 | (a xor b) xor b == a on naturals |
| Encoders.JsXorTwice | src/lib/obfuscator.ts:63 | applying `^ key` twice gives the 32-bit value of the operand back |
| Encoders.SimpleXorEncrypt | src/lib/obfuscator.ts:60-66 | the push loop returns one element per character: the character code `^ key` |
| Encoders.XorRoundTrip | src/lib/obfuscator.ts:60-66 | XOR-ing each encrypted element with the same key gives back the character codes |
| Encoders.XorSmallKey | src/lib/obfuscator.ts:63 | with a key in 1..255 every encrypted element is non-negative and below 2^21 |
| Encoders.XorNats | src/lib/obfuscator.ts:113 | with such a key the encrypted list is a list of naturals, element by element |
| Encoders.XorPayloadDecodes | src/lib/obfuscator.ts:121 | `encrypted.join(',')` splits at the commas and reads back as the encrypted values, which decrypt to the characters |
| Encoders.NatListDecodes | src/lib/obfuscator.ts:121 | a non-empty list of naturals joined with `,` reads back as itself |
| Encoders.PiecesConcat | src/lib/obfuscator.ts:142-146 | the chunks put together give back exactly the code |
| Encoders.PiecesShape | src/lib/obfuscator.ts:142-146 | no chunk is empty; every chunk but the last has exactly the chunk size; the number of chunks is the ceiling of length / size |
| Encoders.ChunkCode | src/lib/obfuscator.ts:142-146 | the `substring(i, i + 100)` push loop computes exactly those chunks |
| Encoders.ChunkArrayDecodes | src/lib/obfuscator.ts:148-150 | a chunk's table is `{`, a comma list that reads back as the chunk's character codes, `}` |
| Encoders.CharCodeFormDecodes | src/lib/obfuscator.ts:215-218 | technique 0 is `string.char(` + a list reading back as exactly the literal's character codes + `)` |
| Encoders.SplitTechnique | src/lib/obfuscator.ts:220-227 | the loop of technique 1 yields the quoted two-character pieces joined with `..` |
| Encoders.SplitFormParts | src/lib/obfuscator.ts:220-227 | each quoted part of technique 1 holds one or two characters, and the parts' bodies put together are the literal |
| Encoders.MixedTechnique | src/lib/obfuscator.ts:229-240 | the loop of technique 2 yields the mixed parts joined with `..` |
| Encoders.MixedPartDecodes | src/lib/obfuscator.ts:233-237 | a mixed part reads back as its character; it is a `string.char(code)` exactly when its index is divisible by 3 |
| Encoders.MixedFormDecodes | src/lib/obfuscator.ts:229-240 | the parts read back as the literal character by character, with `string.char` exactly at the indices divisible by 3 |
| Obfuscator.Technique | src/lib/obfuscator.ts:243-244 | whichever technique the draw picks, the text is an encoding of the literal |
| Obfuscator.LuaObfuscator.ObfuscateString | src/lib/obfuscator.ts:211-245 | one draw picks the technique floor(r*3); the result is that technique's encoding of the literal |
| Obfuscator.LuaObfuscator.ObfuscateVariable | src/lib/obfuscator.ts:247-250 | a reserved name comes back unchanged, with no draw and no name issued; any other name gets a fresh synthetic name |
| Lexer.WordSliceIsIdentifier | src/lib/obfuscator.ts:291 | a run of word characters that starts with `[a-zA-Z_]` is an identifier |
| Lexer.KeywordMatchAt | src/lib/obfuscator.ts:291 | a `keyword\s+name` match captures an identifier and moves `lastIndex` forward |
| Lexer.AssignmentMatchAt | src/lib/obfuscator.ts:310 | a `name\s*=` match captures an identifier and moves `lastIndex` forward |
| Lexer.NextMatch | src/lib/obfuscator.ts:293 | `exec` from `lastIndex` finds the leftmost match, captures an identifier and advances |
| Lexer.CapturesFrom | src/lib/obfuscator.ts:293-298 | every name an `exec` loop captures is an identifier |
| Lexer.AddDeclaredMembers | src/lib/obfuscator.ts:293-307 | the local and function loops add exactly the captured names that are not reserved, and the set stays duplicate-free |
| Lexer.AddAssignedMembers | src/lib/obfuscator.ts:311-319 | the assignment loop adds exactly the captured names that are not reserved and that the code never writes as `local name` or `function name` |
| Lexer.VariablesOfMembers | src/lib/obfuscator.ts:286-322 | the result is duplicate-free; a name is in it iff it is not reserved and is a local, a function, or an assigned name the code never declares; every member is an identifier |
| Lexer.ExtractVariables | src/lib/obfuscator.ts:286-322 | the three `exec` loops return exactly that insertion-ordered set: distinct, unreserved identifiers |
| Lexer.ClosingQuote | src/lib/obfuscator.ts:332 | the closing-quote index lies inside the line and holds the quote |
| Lexer.LiteralAt | src/lib/obfuscator.ts:332 | a literal match at i is the quote, the body and the same quote, at i |
| Lexer.NextLiteralQuoted | src/lib/obfuscator.ts:335-336 | a literal that `exec` finds stands quoted in the line |
| Lexer.LiteralsFrom | src/lib/obfuscator.ts:335-340 | only non-empty bodies are collected |
| Lexer.LiteralsFromQuoted | src/lib/obfuscator.ts:335-340 | every collected body stands quoted in its line |
| Lexer.LiteralsOfLinesOrigin | src/lib/obfuscator.ts:324-344 | every collected literal is non-empty and stands quoted on a line whose trimmed form does not start with `--` |
| Lexer.CommentLineIgnored | src/lib/obfuscator.ts:330 | a comment line in front of the text contributes no literal |
| Lexer.ScanLiterals | src/lib/obfuscator.ts:333-340 | the `exec` loop over a line returns that line's non-empty literal bodies in order |
| Lexer.LineStrings | src/lib/obfuscator.ts:330-340 | a comment line yields nothing, any other line its literals |
| Lexer.ScanLines | src/lib/obfuscator.ts:329-341 | the line loop concatenates the lines' literals in order |
| Lexer.ExtractStrings | src/lib/obfuscator.ts:324-344 | `extractStrings` returns every literal of the non-comment lines, duplicates included, in order |
| Rewrite.ReplaceWordByTokens | src/lib/obfuscator.ts:397-398 | `\bname\b` replaces exactly the maximal identifier-character runs equal to the name; the runs put together are the text |
| Rewrite.ReplaceWordAbsent | src/lib/obfuscator.ts:397-398 | with no whole-word occurrence the text is unchanged |
| Rewrite.ReplaceQuotedAbsent | src/lib/obfuscator.ts:415-416 | with no quoted occurrence the text is unchanged |
| Rewrite.ReplaceQuotedSplice | src/lib/obfuscator.ts:415-416 | the first quoted occurrence, with either quote on each side, is replaced by the replacement with its `$$`, `$&`, `` $` `` and `$'` patterns expanded against the match, the text before it and the text after it; the text before it is kept |
| Rewrite.SubstitutionPlain | src/lib/obfuscator.ts:416 | a replacement string without `$` is inserted as it stands |
| Rewrite.QuotedDollars | src/lib/obfuscator.ts:416 | the replacement `"$$"` inserts `"$"`: a doubled `$` comes out single |
| Rewrite.MapSet | src/lib/obfuscator.ts:392 | `Map.set`: the keys stay distinct in insertion order; the key now holds the value; every other entry is unchanged |
| Rewrite.MapSetNew | src/lib/obfuscator.ts:392 | setting a new key appends the entry |
| Obfuscator.RenameEach | src/lib/obfuscator.ts:396-399 | the `forEach` replaces each entry's whole words, in the map's order |
| Obfuscator.ReplaceEach | src/lib/obfuscator.ts:412-417 | the `forEach` replaces each entry's quoted occurrences, in the map's order, each by the entry's encoding with its `$` patterns expanded |
| Obfuscator.RenamesFresh | src/lib/obfuscator.ts:391-393 | names taken from the issue order are pairwise distinct |
| Obfuscator.Dedup | src/lib/obfuscator.ts:405-409 | the keys a `Map` ends with after setting the literals in turn: no literal twice, and exactly the literals set |
| Obfuscator.LastIndex | src/lib/obfuscator.ts:407-409 | the position of a literal's last occurrence, whose `set` decides its value: it holds the literal and no later position does |
| Obfuscator.LuaObfuscator.BuildVariableMap | src/lib/obfuscator.ts:389-393 | the map's keys are the variables in order; its values are the next names issued, all synthetic |
| Obfuscator.LuaObfuscator.RenameVariables | src/lib/obfuscator.ts:386-400 | every extracted variable maps to its own distinct synthetic name, and the text is the whole-word renaming in that order; the new names are exactly the names issued during the call, in the map's order, so none was issued before |
| Obfuscator.StringTableSnoc | src/lib/obfuscator.ts:407-409 | setting one more literal, encoded with the next draw, keeps the map's keys the distinct literals in first-occurrence order, each holding the encoding drawn at its last occurrence |
| Obfuscator.StringTableEncodes | src/lib/obfuscator.ts:405-409 | such a map keys every literal exactly once and maps each to an encoding of itself |
| Obfuscator.LuaObfuscator.EncodeInto | src/lib/obfuscator.ts:408 | one turn consumes one draw and keeps the map the ordered string table of the literals seen: keys in first-occurrence order, values drawn at each key's last occurrence |
| Obfuscator.LuaObfuscator.BuildStringMap | src/lib/obfuscator.ts:405-409 | one draw per literal; the map's keys are the distinct literals in first-occurrence order, and each holds the encoding drawn at its last occurrence |
| Obfuscator.LuaObfuscator.ObfuscateStrings | src/lib/obfuscator.ts:402-418 | one draw per extracted literal; the table is that ordered string table, and the text is the quoted replacement in the table's order with `$` patterns expanded |
| Lines.Expand | src/lib/obfuscator.ts:271-281 | the pushed list has one line per mask entry |
| Lines.RemovingInsertedRestores | src/lib/obfuscator.ts:271-281 | removing the inserted lines gives back the original lines, unchanged and in order |
| Lines.InsertedFollowEligible | src/lib/obfuscator.ts:276 | an inserted line always comes right after an original line that the pass found eligible |
| Lines.ExpandSplits | src/lib/obfuscator.ts:283 | when no pushed line holds a line feed, splitting the joined output gives the pushed lines back |
| Lines.ExpandSnoc | src/lib/obfuscator.ts:273-280 | pushing one more line grows the output by that line and its extra |
| Lines.PassInserted | src/lib/obfuscator.ts:266-284 | a pass that pushed every line with fitting extras satisfies `LinesInserted`: the output splits into the expanded lines, removing the inserted ones restores the input, and each insertion follows an eligible line |
| Obfuscator.RolledLines | src/lib/obfuscator.ts:271-281 | the draws deciding the lines come in increasing positions, and line i gets an extra exactly when its draw exceeds the threshold and the line is eligible |
| Obfuscator.LuaObfuscator.DummyLine | src/lib/obfuscator.ts:277-279 | one fresh name, then `r > 0.5`, then floor(r*100) < 100; the line is the dummy condition over them and holds no line feed |
| Fragments.DummyConditionShape | src/lib/obfuscator.ts:279 | the dummy condition is one line and declares its name as a local |
| Obfuscator.LuaObfuscator.ControlFlowLine | src/lib/obfuscator.ts:276-280 | the line gets an extra exactly when the turn's first draw exceeds 0.8 and the trimmed line is non-blank and starts with neither `--` nor `local`; the extra is a dummy condition over the one name issued, on one line |
| Obfuscator.LuaObfuscator.ControlFlowPass | src/lib/obfuscator.ts:271-281 | the push loop yields each line followed by its extra; line i has one exactly when its draw exceeds 0.8 and it is eligible; the names issued are the extras' names in order |
| Obfuscator.LuaObfuscator.ObfuscateControlFlow | src/lib/obfuscator.ts:266-284 | the output joins each input line followed by its extra; line i has one exactly when its own draw, taken inside the call in increasing order, exceeds 0.8 and it is eligible; each extra is a dummy condition over the one name issued for it; the names issued are exactly those, in order |
| Fragments.DeadCodeSnippets | src/lib/obfuscator.ts:254-262 | there are seven snippets |
| Fragments.DeadCodeSnippetsShape | src/lib/obfuscator.ts:254-262 | every snippet is one line; all but the fifth declare their own name as a local; the fifth is a comment naming it |
| Fragments.SnippetsOneLine | src/lib/obfuscator.ts:254-262 | no snippet holds a line feed |
| Fragments.SnippetsDeclare | src/lib/obfuscator.ts:254-262 | snippets 1-4, 6 and 7 contain `local <their name>`; snippet 5 starts with `-- <its name>` |
| Obfuscator.LuaObfuscator.DeadCodeHead | src/lib/obfuscator.ts:255-257 | the first three snippets' draws in source order: three names issued, floor(r*100) < 100 |
| Obfuscator.LuaObfuscator.DeadCodeTail | src/lib/obfuscator.ts:258-261 | the last four snippets' draws in source order: four names issued, floor(r*1000) < 1000 |
| Obfuscator.LuaObfuscator.InsertDeadCode | src/lib/obfuscator.ts:252-264 | all seven snippets are built, so seven names are issued, then one snippet is picked; the result is one line |
| Obfuscator.LuaObfuscator.DeadCodeLine | src/lib/obfuscator.ts:434-436 | the line gets an extra exactly when the turn's first draw exceeds 0.9 and the trimmed line is non-blank and does not start with `--`; the extra is one of the seven snippets over the seven names issued, on one line |
| Obfuscator.LuaObfuscator.DeadCodePass | src/lib/obfuscator.ts:431-438 | the push loop yields each line followed by its extra; line i has one exactly when its draw exceeds 0.9 and it is eligible; the names issued are the extras' names in order |
| Obfuscator.LuaObfuscator.DeadCodeStage | src/lib/obfuscator.ts:426-440 | the output joins each input line followed by its extra; line i has one exactly when its own draw, taken inside the call in increasing order, exceeds 0.9 and it is eligible; each extra is a dead-code snippet over the seven names issued for it; the names issued are exactly those, in order |
| Fragments.InterpolateSplit | src/lib/obfuscator.ts:73-86 | a template literal is the text before a substitution, its value and the text after it |
| Fragments.Around | src/lib/obfuscator.ts:96 | the text around a substitution appears in the template's result |
| Fragments.AntiDebugDeclares | src/lib/obfuscator.ts:68-87 | the anti-debug fragment opens with its comment line and declares all three of its names as locals |
| Obfuscator.LuaObfuscator.GenerateAntiDebugCode | src/lib/obfuscator.ts:68-87 | the fragment is the template over the next three names issued |
| Fragments.RuntimeChecksDeclares | src/lib/obfuscator.ts:89-109 | the runtime-check fragment opens with its comment line, binds its table name to `{}` on a line of its own and declares its other two names |
| Obfuscator.LuaObfuscator.GenerateRuntimeChecks | src/lib/obfuscator.ts:89-109 | the fragment is the template over the next three names issued |
| Fragments.EnvironmentDetectionDeclares | src/lib/obfuscator.ts:177-209 | the environment fragment opens with its comment line and declares all three of its names |
| Obfuscator.LuaObfuscator.GenerateEnvironmentDetection | src/lib/obfuscator.ts:177-209 | the fragment is the template over the next three names issued |
| Fragments.EncryptionWrapperBinds | src/lib/obfuscator.ts:118-133 | the wrapper binds the key name to the key and the table name to the braced list, each on its own line, and declares the decoder |
| Fragments.EncryptionPayload | src/lib/obfuscator.ts:111-134 | the wrapper's table reads back as numbers that, XOR-ed with the bound key, are the wrapped code's characters in order |
| Obfuscator.LuaObfuscator.GenerateEncryptionWrapper | src/lib/obfuscator.ts:111-134 | the key floor(r*255)+1 is drawn first, then the decryptor, table and key names; the result is the wrapper over the XOR-encrypted code |
| Fragments.SelfModifyingBinds | src/lib/obfuscator.ts:152-174 | the fragment binds its table name to the braced, comma-joined chunk tables and declares its decoder and loader |
| Fragments.SelfModifyingPayload | src/lib/obfuscator.ts:136-175 | the chunks put together are the code, and each chunk table reads back as that chunk's character codes |
| Obfuscator.LuaObfuscator.GenerateSelfModifyingCode | src/lib/obfuscator.ts:136-175 | loader, decoder and table names are issued in that order; the result is the fragment over the code's 100-character chunks |
| Fragments.AnyOccurs | src/lib/obfuscator.ts:361 | `some` is true iff some pattern occurs in the code |
| Fragments.IsRobloxScript | src/lib/obfuscator.ts:346-362 | a script is a Roblox script iff one of the ten patterns occurs in it |
| Fragments.HeaderNamesKind | src/lib/obfuscator.ts:371 | the header's first line says `Roblox` iff the script is a Roblox one, otherwise `Lua`; the header ends with a line feed |
| Obfuscator.LuaObfuscator.AntiDebugLayer | src/lib/obfuscator.ts:374-376 | when switched on, the anti-debug fragment over three fresh names is put in front of the buffer |
| Obfuscator.LuaObfuscator.RuntimeLayer | src/lib/obfuscator.ts:378-380 | when switched on, the runtime-check fragment over three fresh names is put in front |
| Obfuscator.LuaObfuscator.EnvironmentLayer | src/lib/obfuscator.ts:382-384 | when switched on, the environment fragment over three fresh names is put in front |
| Obfuscator.LuaObfuscator.AddLayers | src/lib/obfuscator.ts:373-384 | step 1 leaves environment detection first, then runtime checks, then anti-debug, then the input; the names are issued in that order |
| Obfuscator.LuaObfuscator.VariableStage | src/lib/obfuscator.ts:386-400 | when switched on the buffer is renamed as `Renamed` says, with new names that are exactly the names issued during the call; otherwise the buffer is unchanged and no name is issued |
| Obfuscator.LuaObfuscator.StringStage | src/lib/obfuscator.ts:402-418 | when switched on the literals are encoded as `LiteralsEncoded` says (the ordered string table, replaced in its order); otherwise the buffer is unchanged |
| Obfuscator.LuaObfuscator.FlowStage | src/lib/obfuscator.ts:420-423 | when switched on, control-flow lines are inserted as `FlowInserted` says: after exactly the eligible lines whose draw exceeds 0.8, each a dummy condition over its name; otherwise the buffer is unchanged and no name is issued |
| Obfuscator.LuaObfuscator.PaddingStage | src/lib/obfuscator.ts:425-440 | when switched on, dead-code lines are inserted as `DeadInserted` says: after exactly the eligible lines whose draw exceeds 0.9, each a snippet over its seven names; otherwise the buffer is unchanged and no name is issued |
| Obfuscator.LuaObfuscator.EncryptStage | src/lib/obfuscator.ts:443-445 | when switched on, the buffer becomes the encryption wrapper over it with a key in 1..255 |
| Obfuscator.LuaObfuscator.SelfModifyingStage | src/lib/obfuscator.ts:447-449 | when switched on, the buffer becomes the self-modifying fragment over its 100-character chunks |
| Obfuscator.LuaObfuscator.Rewrite | src/lib/obfuscator.ts:386-418 | steps 2 and 3, in that order; the names issued are the renaming's new names |
| Obfuscator.LuaObfuscator.Insert | src/lib/obfuscator.ts:420-440 | steps 4 and 5, in that order; the names issued are the control-flow names, then the dead-code names |
| Obfuscator.LuaObfuscator.Wrap | src/lib/obfuscator.ts:442-457 | step 6 (encryption, then self-modifying) and step 7, the compaction as the source writes it; with compaction on the body is one line with no doubled white space and none at either end; the names issued are the wrappers' |
| Obfuscator.LuaObfuscator.Transform | src/lib/obfuscator.ts:386-457 | steps 2 to 7 in their fixed order over the layered buffer, with the as-written compaction; the names issued are each stage's names in stage order; with compaction on the body is one line without doubled or surrounding white space |
| Obfuscator.LuaObfuscator.Run | src/lib/obfuscator.ts:373-457 | the seven steps in order, each stage's buffer feeding the next; the names issued are exactly the layers' names, then each later stage's, in the order drawn; the compaction shape when switched on |
| Obfuscator.LuaObfuscator.Obfuscate | src/lib/obfuscator.ts:364-460 | the registry is cleared first: afterwards it holds exactly this run's names, issued distinct and unreserved in the order layers, renaming, inserted lines, wrappers; the seven steps run in order; the result is the header (decided on the original input) followed by the final buffer, which with compaction on is one line with no doubled white space and none at either end |
| Text.Trim | src/lib/obfuscator.ts:276 | `trim()` is empty iff the line is all white space; otherwise it starts and ends with a non-space |
| Text.JoinSplit | src/lib/obfuscator.ts:268-283 | joining the pieces of a split with the separator gives the text back |
| Text.SplitJoin | src/lib/obfuscator.ts:268-283 | splitting a join gives the parts back when no part holds the separator |
| Text.DecimalRoundTrip | src/lib/obfuscator.ts:121 | the decimal text of a number reads back as the number |
| Compaction.CollapseSpace | src/lib/obfuscator.ts:454 | `/\s+/g -> ' '` leaves single spaces only, no two in a row, keeps every other character in order, and keeps whether the text starts with white space |
| Compaction.CompactAsWrittenShape | src/lib/obfuscator.ts:452-457 | the compacted body as written holds no line feed, no double white space and no white space at either end, and keeps every other character in order |
| Compaction.CommentSwallowsNextLine | src/lib/obfuscator.ts:452-457 | as written, a text whose first line is a `--` comment compacts to one line that is a comment and holds the next line's characters |
| Compaction.CompactLineShape | src/lib/obfuscator.ts:454-456 | a compacted line is empty iff the line is blank; it keeps every other character and has no double or edge white space |
| Compaction.CompactCodeLines | src/lib/obfuscator.ts:452-457 | the corrected compaction's lines are exactly the compacted non-blank input lines |
| Compaction.CompactLineComment | src/lib/obfuscator.ts:452-457 | compacting a line never makes it a comment and never stops it being one |
| Entropy.Scaled | src/lib/obfuscator.ts:45 | `Math.floor(Math.random() * n)` is below n |
| Entropy.ScaledIsFloor | src/lib/obfuscator.ts:45 | it is the integer part of r*n |
| Entropy.MathRandom.Next | src/lib/obfuscator.ts:258 | one call returns the next draw and advances the cursor |
| Entropy.MathRandom.Below | src/lib/obfuscator.ts:48 | `Math.floor(Math.random() * n)` consumes one draw and yields its scaled index |
| Entropy.MathRandom.Above | src/lib/obfuscator.ts:276 | `Math.random() > p` consumes one draw and compares it |

## Left out

- I/O and the clock: the header's `new Date().toISOString()` is a `timestamp` parameter of `Obfuscate`. The engine's singleton export, the React UI, the theme table and the tooltip component are not part of this model.
- `Math.random` is a fixed sequence of draws in [0, 1) supplied by the caller.
  - How JavaScript prints a draw inside a template literal (dead-code snippet 4) is an oracle. It is constrained only to produce numeral characters.
- Obfuscator.LuaObfuscator.GenerateObfuscatedName: the `do … while` retry loop has no bound in the source. The model gives up after `MaxAttempts` (1000) collisions and returns `NamesExhausted`, which every stage passes on. So a successful result is proved, but termination of the random retry is not.
- Characters are UTF-16 code units as Dafny `char`s. Astral characters and `String.fromCharCode` beyond a Dafny `char` are not modelled.
- The regular expressions are hand-written scanners for the exact patterns used, not a regular-expression engine:
  - `\s` is JavaScript's white-space set;
  - the escape-aware literal pattern reads `\` plus any character other than a line terminator, as `.` does;
  - the escaping of regex specials before the quoted replace is modelled as a literal match of the body.
- The runtime meaning of the emitted Lua is not modelled: `os.clock` timing, `load`, `pairs`, the infinite loop, `error`. Only the text of each fragment, the names it binds and the payload it carries are stated.
- Obfuscator.LuaObfuscator.GenerateEncryptionWrapper: JavaScript's `^` is modelled through ToInt32 for all integers. The statement that the element list decrypts back to the characters is made for keys 1..255, the only keys the engine draws.
- Fragments.RuntimeChecksDeclares, Fragments.EncryptionWrapperBinds, Fragments.SelfModifyingBinds: "binds on a line of its own" is stated as `local <name> = <value>` followed by a line feed. The preceding line feed is not stated.
- Compaction: step 7 is the compaction as the source writes it (`Compaction.CompactAsWritten`). The corrected compaction `Compaction.CompactCode` is not used by the engine; it is the corrected half of the finding below.

## Findings

| source | as written | input that shows it | evidently intended | confidence | as-written member | corrected member |
|---|---|---|---|---|---|---|
| src/lib/obfuscator.ts:452-457 | `replace(/\s+/g, ' ')` runs first, so every line feed becomes a space and the following `replace(/\n\s*/g, '\n')` never matches. The whole body becomes one line, and a `--` comment on an early line swallows the rest of the program. The protection fragments and the dead-code snippet 5 all emit such comments. | `-- c` + line feed + `x` compacts to `-- c x`, a single comment line: the statement `x` is lost | white-space runs collapsed and indentation dropped, with the line structure kept so each comment ends at its own line | high, not executed | Compaction.CommentSwallowsNextLine | Compaction.CompactCodeLines |
