/** The text the engine emits around the user's code: the five protection
    fragments, the dead-code snippets, the dummy condition of the control-flow
    pass, the output header and the Roblox detection that chooses it. Each
    fragment is a template literal over the fresh names the engine draws for it. */
module Fragments {
  import opened Wrappers
  import opened Text
  import opened Encoders

  // ---------------------------------------------------------------- template literals

  /** A JavaScript template literal: its literal chunks with the `${…}`
      substitutions between them, concatenated in order. */
  function Interpolate(chunks: seq<string>, values: seq<string>): string
    requires |chunks| == |values| + 1
    decreases |values|
  {
    if values == [] then chunks[0]
    else chunks[0] + values[0] + Interpolate(chunks[1..], values[1..])
  }

  /** The fragment opens with the given text (a line feed and its comment line). */
  predicate Opens(text: string, opening: string) {
    StartsWith(text, opening)
  }

  /** The fragment declares `name` as a Lua local somewhere. */
  predicate Declares(text: string, name: string) {
    Contains(text, "local " + name)
  }

  /** The fragment holds `local <name> = <value>` with the line ending right after the value. */
  predicate Binds(text: string, name: string, value: string) {
    Contains(text, "local " + name + " = " + value + "\n")
  }

  /** The fragment holds `local <name> = {<items>}` with the line ending
      right after it: a Lua table built from `items`. */
  predicate BindsTable(text: string, name: string, items: string) {
    Contains(text, "local " + name + " = {" + items + "}\n")
  }

  /** Substitution `k` cuts the literal into the part before it, its value and the part after it. */
  lemma {:induction false} InterpolateSplit(chunks: seq<string>, values: seq<string>, k: nat)
    requires |chunks| == |values| + 1 && k < |values|
    ensures Interpolate(chunks, values)
         == Interpolate(chunks[..k + 1], values[..k]) + values[k] + Interpolate(chunks[k + 1..], values[k + 1..])
    decreases k
  {
    if k == 0 {
      assert chunks[..1] == [chunks[0]];
      assert values[..0] == [];
    } else {
      InterpolateSplit(chunks[1..], values[1..], k - 1);
      assert chunks[..k + 1][0] == chunks[0] && values[..k][0] == values[0];
      assert chunks[..k + 1][1..] == chunks[1..][..k];
      assert values[..k][1..] == values[1..][..k - 1];
      assert chunks[1..][k..] == chunks[k + 1..];
      assert values[1..][k..] == values[k + 1..];
      var head := chunks[0] + values[0];
      var left := Interpolate(chunks[1..][..k], values[1..][..k - 1]);
      var right := Interpolate(chunks[k + 1..], values[k + 1..]);
      assert Interpolate(chunks, values) == head + (left + values[k] + right);
      assert Interpolate(chunks[..k + 1], values[..k]) == head + left;
      AppendAssoc(head, left + values[k], right);
      AppendAssoc(head, left, values[k]);
    }
  }

  lemma InterpolateStarts(chunks: seq<string>, values: seq<string>)
    requires |chunks| == |values| + 1
    ensures StartsWith(Interpolate(chunks, values), chunks[0])
  {
    if values != [] {
      var rest := values[0] + Interpolate(chunks[1..], values[1..]);
      assert Interpolate(chunks, values) == chunks[0] + rest;
      assert (chunks[0] + rest)[..|chunks[0]|] == chunks[0];
    }
  }

  lemma {:induction false} InterpolateEnds(chunks: seq<string>, values: seq<string>)
    requires |chunks| == |values| + 1
    ensures EndsWith(Interpolate(chunks, values), chunks[|chunks| - 1])
    decreases |values|
  {
    if values != [] {
      InterpolateEnds(chunks[1..], values[1..]);
      var head := chunks[0] + values[0];
      var rest := Interpolate(chunks[1..], values[1..]);
      var last := chunks[|chunks| - 1];
      assert chunks[1..][|chunks[1..]| - 1] == last;
      assert Interpolate(chunks, values) == head + rest;
      assert (head + rest)[|head + rest| - |last|..] == rest[|rest| - |last|..];
    }
  }

  /** A chunk that ends in `local ` starts with what comes before it and ends with `local `. */
  lemma LocalAppended()
    ensures forall x: string :: StartsWith(x + "local ", x) && EndsWith(x + "local ", "local ")
  {
    forall x: string
      ensures StartsWith(x + "local ", x) && EndsWith(x + "local ", "local ")
    {
      assert (x + "local ")[..|x|] == x;
      assert (x + "local ")[|x|..] == "local ";
    }
  }

  lemma StartsWithTrans(s: string, t: string, u: string)
    requires StartsWith(s, t) && StartsWith(t, u)
    ensures StartsWith(s, u)
  {
    assert s[..|u|] == s[..|t|][..|u|];
  }

  lemma EndsWithTrans(s: string, t: string, u: string)
    requires EndsWith(s, t) && EndsWith(t, u)
    ensures EndsWith(s, u)
  {
    assert s[|s| - |u|..] == s[|s| - |t|..][|t| - |u|..];
  }

  /** The text around substitution `k`: the end of the chunk before it, its
      value and the start of the chunk after it, in one piece. */
  lemma Around(chunks: seq<string>, values: seq<string>, k: nat, before: string, after: string)
    requires |chunks| == |values| + 1 && k < |values|
    requires EndsWith(chunks[k], before) && StartsWith(chunks[k + 1], after)
    ensures Contains(Interpolate(chunks, values), before + values[k] + after)
  {
    InterpolateSplit(chunks, values, k);
    var left := Interpolate(chunks[..k + 1], values[..k]);
    var right := Interpolate(chunks[k + 1..], values[k + 1..]);
    InterpolateEnds(chunks[..k + 1], values[..k]);
    InterpolateStarts(chunks[k + 1..], values[k + 1..]);
    EndsWithTrans(left, chunks[k], before);
    StartsWithTrans(right, chunks[k + 1], after);
    var a := left[..|left| - |before|];
    var b := right[|after|..];
    assert left == a + before;
    assert right == after + b;
    var v := values[k];
    assert Interpolate(chunks, values) == a + before + v + (after + b);
    AppendAssoc(a + before + v, after, b);
    AppendAssoc(a, before, v);
    AppendAssoc(a, before + v, after);
    assert Interpolate(chunks, values) == a + (before + v + after) + b;
    ContainsMiddle(a, before + v + after, b);
  }

  /** The text around two substitutions `k` and `k + 1` and the chunk between them. */
  lemma AroundPair(chunks: seq<string>, values: seq<string>, k: nat, before: string, after: string)
    requires |chunks| == |values| + 1 && k + 1 < |values|
    requires EndsWith(chunks[k], before) && StartsWith(chunks[k + 2], after)
    ensures Contains(Interpolate(chunks, values), before + values[k] + chunks[k + 1] + values[k + 1] + after)
  {
    InterpolateSplit(chunks, values, k);
    var left := Interpolate(chunks[..k + 1], values[..k]);
    var right := Interpolate(chunks[k + 1..], values[k + 1..]);
    var tail := Interpolate(chunks[k + 2..], values[k + 2..]);
    assert chunks[k + 1..][1..] == chunks[k + 2..] && values[k + 1..][1..] == values[k + 2..];
    assert right == chunks[k + 1] + values[k + 1] + tail;
    InterpolateEnds(chunks[..k + 1], values[..k]);
    InterpolateStarts(chunks[k + 2..], values[k + 2..]);
    EndsWithTrans(left, chunks[k], before);
    StartsWithTrans(tail, chunks[k + 2], after);
    var a := left[..|left| - |before|];
    var b := tail[|after|..];
    assert left == a + before;
    assert tail == after + b;
    var v, c, w := values[k], chunks[k + 1], values[k + 1];
    var q := c + w + after;
    var middle := before + v + c + w + after;
    assert Interpolate(chunks, values) == a + before + v + (c + w + (after + b));
    AppendAssoc(c + w, after, b);
    AppendAssoc(a + before + v, q, b);
    AppendAssoc(a, before, v);
    AppendAssoc(a, before + v, q);
    AppendAssoc(before + v, c + w, after);
    AppendAssoc(before + v, c, w);
    assert Interpolate(chunks, values) == a + middle + b;
    ContainsMiddle(a, middle, b);
  }

  lemma OpensAt(chunks: seq<string>, values: seq<string>, opening: string)
    requires |chunks| == |values| + 1
    requires StartsWith(chunks[0], opening)
    ensures Opens(Interpolate(chunks, values), opening)
  {
    InterpolateStarts(chunks, values);
    StartsWithTrans(Interpolate(chunks, values), chunks[0], opening);
  }

  lemma DeclaresAt(chunks: seq<string>, values: seq<string>, k: nat)
    requires |chunks| == |values| + 1 && k < |values|
    requires EndsWith(chunks[k], "local ")
    ensures Declares(Interpolate(chunks, values), values[k])
  {
    Around(chunks, values, k, "local ", "");
    assert "local " + values[k] + "" == "local " + values[k];
  }

  // ---------------------------------------------------------------- protection fragments

  /** The literal chunks of `generateAntiDebugCode`'s template. */
  const AntiDebugChunks: seq<string> := [
    "\n-- Anti-debug protection\n" + "local ",
    " = os and os.clock or clock\n" + "local ",
    " = function()\n    local start = ",
    "()\n    for i = 1, 100000 do end\n    local diff = ",
    "() - start\n    if diff > 0.1 then\n        " + "local ",
    " = function() error(\"Debug detected!\") end\n        ",
    "()\n    end\nend\n",
    "()\n"
  ]

  lemma AntiDebugChunksShape()
    ensures StartsWith(AntiDebugChunks[0], "\n-- Anti-debug protection\n")
    ensures EndsWith(AntiDebugChunks[0], "local ") && EndsWith(AntiDebugChunks[1], "local ")
    ensures EndsWith(AntiDebugChunks[4], "local ")
  {
    LocalAppended();
  }

  function AntiDebugCode(varName: string, checkName: string, errorName: string): string {
    Interpolate(AntiDebugChunks, [varName, checkName, varName, varName, errorName, errorName, checkName])
  }

  /** The anti-debug fragment opens with its comment line and declares all three of its names. */
  lemma AntiDebugDeclares(varName: string, checkName: string, errorName: string)
    ensures var text := AntiDebugCode(varName, checkName, errorName);
      Opens(text, "\n-- Anti-debug protection\n")
      && Declares(text, varName) && Declares(text, checkName) && Declares(text, errorName)
  {
    var values := [varName, checkName, varName, varName, errorName, errorName, checkName];
    AntiDebugChunksShape();
    OpensAt(AntiDebugChunks, values, "\n-- Anti-debug protection\n");
    DeclaresAt(AntiDebugChunks, values, 0);
    DeclaresAt(AntiDebugChunks, values, 1);
    DeclaresAt(AntiDebugChunks, values, 4);
  }

  /** The literal chunks of `generateRuntimeChecks`'s template. */
  const RuntimeCheckChunks: seq<string> := [
    "\n-- Runtime integrity check\n" + "local ",
    " = {}\n" + "local ",
    " = function()\n    " + "local ",
    " = 0\n    for k, v in pairs(",
    ") do\n        ",
    " = ",
    " + #tostring(k) + #tostring(v)\n    end\n    if ",
    " % 7 ~= 3 then\n" +
      "        while true do end -- Infinite loop if tampered\n" +
      "    end\n" +
      "end\n",
    ".check = ",
    "\n",
    "()\n"
  ]

  lemma RuntimeCheckChunksShape()
    ensures StartsWith(RuntimeCheckChunks[0], "\n-- Runtime integrity check\n")
    ensures EndsWith(RuntimeCheckChunks[0], "local ") && StartsWith(RuntimeCheckChunks[1], " = {}\n")
    ensures EndsWith(RuntimeCheckChunks[1], "local ") && EndsWith(RuntimeCheckChunks[2], "local ")
  {
    LocalAppended();
  }

  function RuntimeChecks(integrityVar: string, checkVar: string, hashVar: string): string {
    Interpolate(RuntimeCheckChunks,
      [integrityVar, checkVar, hashVar, integrityVar, hashVar, hashVar, hashVar, integrityVar, checkVar, checkVar])
  }

  /** The runtime-check fragment opens with its comment line, starts its table
      empty on a line of its own and declares its other two names. */
  lemma RuntimeChecksDeclares(integrityVar: string, checkVar: string, hashVar: string)
    ensures var text := RuntimeChecks(integrityVar, checkVar, hashVar);
      Opens(text, "\n-- Runtime integrity check\n")
      && Binds(text, integrityVar, "{}")
      && Declares(text, checkVar) && Declares(text, hashVar)
  {
    var values := [integrityVar, checkVar, hashVar, integrityVar, hashVar, hashVar, hashVar, integrityVar, checkVar, checkVar];
    RuntimeCheckChunksShape();
    OpensAt(RuntimeCheckChunks, values, "\n-- Runtime integrity check\n");
    Around(RuntimeCheckChunks, values, 0, "local ", " = {}\n");
    assert "local " + integrityVar + " = {}\n" == "local " + integrityVar + " = " + "{}" + "\n";
    DeclaresAt(RuntimeCheckChunks, values, 1);
    DeclaresAt(RuntimeCheckChunks, values, 2);
  }

  /** The literal chunks of `generateEncryptionWrapper`'s template. */
  const EncryptionChunks: seq<string> := [
    "\n-- Encrypted code wrapper\n" + "local ",
    " = ",
    "\n" + "local ",
    " = {",
    "}\n" + "local ",
    " = function(data, key)\n" +
      "    local result = \"\"\n" +
      "    for i = 1, #data do\n" +
      "        result = result .. string.char(data[i] ~ key)\n" +
      "    end\n" +
      "    return result\n" +
      "end\n" +
      "local compiled = load(",
    "(",
    ", ",
    "))\nif compiled then\n    compiled()\nend\n"
  ]

  lemma EncryptionChunksShape()
    ensures StartsWith(EncryptionChunks[0], "\n-- Encrypted code wrapper\n")
    ensures EndsWith(EncryptionChunks[0], "local ") && EncryptionChunks[1] == " = "
    ensures StartsWith(EncryptionChunks[2], "\n") && EndsWith(EncryptionChunks[2], "local ")
    ensures EncryptionChunks[3] == " = {" && StartsWith(EncryptionChunks[4], "}\n")
    ensures EndsWith(EncryptionChunks[4], "local ")
  {
    LocalAppended();
  }

  function EncryptionWrapper(keyVar: string, encryptedVar: string, decryptVar: string, key: nat, encrypted: seq<int>): string {
    Interpolate(EncryptionChunks,
      [keyVar, NatToString(key), encryptedVar, NumberList(encrypted), decryptVar, decryptVar, encryptedVar, keyVar])
  }

  /** The wrapper binds its key name to the key text and its table name to the
      braced number list, each on a line of its own, and declares its decoder. */
  lemma EncryptionWrapperBinds(keyVar: string, encryptedVar: string, decryptVar: string, key: nat, encrypted: seq<int>)
    ensures var text := EncryptionWrapper(keyVar, encryptedVar, decryptVar, key, encrypted);
      Opens(text, "\n-- Encrypted code wrapper\n")
      && Binds(text, keyVar, NatToString(key))
      && BindsTable(text, encryptedVar, NumberList(encrypted))
      && Declares(text, decryptVar)
  {
    var payload := NumberList(encrypted);
    var values := [keyVar, NatToString(key), encryptedVar, payload, decryptVar, decryptVar, encryptedVar, keyVar];
    EncryptionChunksShape();
    OpensAt(EncryptionChunks, values, "\n-- Encrypted code wrapper\n");
    AroundPair(EncryptionChunks, values, 0, "local ", "\n");
    AroundPair(EncryptionChunks, values, 2, "local ", "}\n");
    DeclaresAt(EncryptionChunks, values, 4);
  }

  /** The wrapper binds its key name to the key and its table name to the
      encrypted list, and that list reads back as numbers that, XOR-ed with the
      same key, are the characters of the wrapped code in order. */
  lemma EncryptionPayload(keyVar: string, encryptedVar: string, decryptVar: string, key: nat, code: string)
    requires code != [] && 1 <= key <= 255
    ensures var payload := NumberList(XorCodes(code, key));
      var text := EncryptionWrapper(keyVar, encryptedVar, decryptVar, key, XorCodes(code, key));
      Opens(text, "\n-- Encrypted code wrapper\n")
      && Binds(text, keyVar, NatToString(key))
      && BindsTable(text, encryptedVar, payload)
      && Declares(text, decryptVar)
      && ParseNumberList(Split(payload, ',')) == Some(XorNats(code, key))
      && forall i :: 0 <= i < |code| ==> JsXor(XorNats(code, key)[i], key) == code[i] as nat
  {
    EncryptionWrapperBinds(keyVar, encryptedVar, decryptVar, key, XorCodes(code, key));
    XorPayloadDecodes(code, key);
  }

  /** The literal chunks of `generateSelfModifyingCode`'s template. */
  const SelfModifyingChunks: seq<string> := [
    "\n-- Self-modifying code\n" + "local ",
    " = {",
    "}\n" + "local ",
    " = function(data)\n" +
      "    local result = \"\"\n" +
      "    for i = 1, #data do\n" +
      "        result = result .. string.char(data[i])\n" +
      "    end\n" +
      "    return result\n" +
      "end\n" +
      "local ",
    " = function()\n    local code = \"\"\n    for i = 1, #",
    " do\n        code = code .. ",
    "(",
    "[i])\n        ",
    "[i] = nil -- Clear chunk after use\n" +
      "    end\n" +
      "    return load(code)\n" +
      "end\n" +
      "local compiled = ",
    "()\nif compiled then\n    compiled()\nend\n"
  ]

  lemma SelfModifyingChunksShape()
    ensures StartsWith(SelfModifyingChunks[0], "\n-- Self-modifying code\n")
    ensures EndsWith(SelfModifyingChunks[0], "local ") && SelfModifyingChunks[1] == " = {"
    ensures StartsWith(SelfModifyingChunks[2], "}\n") && EndsWith(SelfModifyingChunks[2], "local ")
    ensures EndsWith(SelfModifyingChunks[3], "local ")
  {
    LocalAppended();
  }

  function SelfModifyingCode(chunksVar: string, modifyVar: string, funcVar: string, chunkArrays: seq<string>): string {
    Interpolate(SelfModifyingChunks,
      [chunksVar, Join(chunkArrays, ","), modifyVar, funcVar, chunksVar, modifyVar, chunksVar, chunksVar, funcVar])
  }

  /** The fragment binds its table name to the braced, comma-joined chunk
      tables on a line of its own and declares its decoder and its loader. */
  lemma SelfModifyingBinds(chunksVar: string, modifyVar: string, funcVar: string, chunkArrays: seq<string>)
    ensures var text := SelfModifyingCode(chunksVar, modifyVar, funcVar, chunkArrays);
      Opens(text, "\n-- Self-modifying code\n")
      && BindsTable(text, chunksVar, Join(chunkArrays, ","))
      && Declares(text, modifyVar) && Declares(text, funcVar)
  {
    var tables := Join(chunkArrays, ",");
    var values := [chunksVar, tables, modifyVar, funcVar, chunksVar, modifyVar, chunksVar, chunksVar, funcVar];
    SelfModifyingChunksShape();
    OpensAt(SelfModifyingChunks, values, "\n-- Self-modifying code\n");
    AroundPair(SelfModifyingChunks, values, 0, "local ", "}\n");
    DeclaresAt(SelfModifyingChunks, values, 2);
    DeclaresAt(SelfModifyingChunks, values, 3);
  }

  /** The fragment binds its table name to the chunk tables of the code cut
      into 100-character pieces; each table reads back as its piece's
      character codes and the pieces put together are the code. */
  lemma SelfModifyingPayload(chunksVar: string, modifyVar: string, funcVar: string, code: string)
    ensures var chunks := Pieces(code, 100);
      var text := SelfModifyingCode(chunksVar, modifyVar, funcVar, ChunkArrays(chunks));
      Opens(text, "\n-- Self-modifying code\n")
      && BindsTable(text, chunksVar, Join(ChunkArrays(chunks), ","))
      && Declares(text, modifyVar) && Declares(text, funcVar)
      && Concat(chunks) == code
      && (forall k :: 0 <= k < |chunks| ==> TableOf(ChunkArrays(chunks)[k], Codes(chunks[k])))
  {
    var chunks := Pieces(code, 100);
    SelfModifyingBinds(chunksVar, modifyVar, funcVar, ChunkArrays(chunks));
    PiecesConcat(code, 100);
    PiecesShape(code, 100);
    forall k | 0 <= k < |chunks|
      ensures TableOf(ChunkArrays(chunks)[k], Codes(chunks[k]))
    {
      ChunkArrayDecodes(chunks[k]);
    }
  }

  /** `t` is `{`, a comma-separated list reading back as `codes`, `}`. */
  predicate TableOf(t: string, codes: seq<nat>) {
    2 < |t| && t[0] == '{' && t[|t| - 1] == '}'
    && ParseNumberList(Split(t[1..|t| - 1], ',')) == Some(codes)
  }

  /** The literal chunks of `generateEnvironmentDetection`'s template. */
  const EnvironmentChunks: seq<string> := [
    "\n-- Environment detection\n" + "local ",
    " = {\n" +
      "    roblox = function() \n" +
      "        return (game and game.GetService) or (workspace and " +
      "workspace.FindFirstChild)\n" +
      "    end,\n" +
      "    standard = function()\n" +
      "        return io and io.open and os and os.execute\n" +
      "    end\n" +
      "}\n" +
      "local ",
    " = function()\n    if ",
    ".roblox() then\n" +
      "        -- Roblox environment detected\n" +
      "        return true\n" +
      "    elseif ",
    ".standard() then\n" +
      "        -- Standard Lua environment detected\n" +
      "        return true\n" +
      "    else\n" +
      "        " +
      "local ",
    " = function() return \"Unknown environment\" end\n" +
      "        return ",
    "()\n    end\nend\nlocal env_ok = ",
    "()\n" +
      "if not env_ok or env_ok == \"Unknown environment\" then\n" +
      "    error(\"Unsupported environment\")\n" +
      "end\n"
  ]

  lemma EnvironmentChunksShape()
    ensures StartsWith(EnvironmentChunks[0], "\n-- Environment detection\n")
    ensures EndsWith(EnvironmentChunks[0], "local ") && EndsWith(EnvironmentChunks[1], "local ")
    ensures EndsWith(EnvironmentChunks[4], "local ")
  {
    LocalAppended();
  }

  function EnvironmentDetection(detectVar: string, checkVar: string, safeVar: string): string {
    Interpolate(EnvironmentChunks, [detectVar, checkVar, detectVar, detectVar, safeVar, safeVar, checkVar])
  }

  /** The environment fragment opens with its comment line and declares all three of its names. */
  lemma EnvironmentDetectionDeclares(detectVar: string, checkVar: string, safeVar: string)
    ensures var text := EnvironmentDetection(detectVar, checkVar, safeVar);
      Opens(text, "\n-- Environment detection\n")
      && Declares(text, detectVar) && Declares(text, checkVar) && Declares(text, safeVar)
  {
    var values := [detectVar, checkVar, detectVar, detectVar, safeVar, safeVar, checkVar];
    EnvironmentChunksShape();
    OpensAt(EnvironmentChunks, values, "\n-- Environment detection\n");
    DeclaresAt(EnvironmentChunks, values, 0);
    DeclaresAt(EnvironmentChunks, values, 1);
    DeclaresAt(EnvironmentChunks, values, 4);
  }


  // ---------------------------------------------------------------- line-insertion texts

  /** The seven snippets `insertDeadCode` builds before picking one, over the
      seven names it draws and the random values pasted into them. */
  function DeadCodeSnippets(names: seq<string>, small: nat, flag: bool, number: string, large: nat): (r: seq<string>)
    requires |names| == 7
    ensures |r| == 7
  {
    [ ("local " + names[0]) + (" = " + NatToString(small)),
      ("if (" + BoolText(flag) + ") then ") + ("local " + names[1]) + " = nil end",
      ("local " + names[2]) + " = function() return nil end",
      "do " + ("local " + names[3]) + (" = " + number + " end"),
      ("-- " + names[4]) + (" = " + NatToString(large)),
      ("local " + names[5]) + " = {}",
      "if false then " + ("local " + names[6]) + " = \"unused\" end" ]
  }

  /** Every snippet is one line; every snippet but the fifth declares its own
      name as a local, and the fifth is a comment naming it. */
  lemma DeadCodeSnippetsShape(names: seq<string>, small: nat, flag: bool, number: string, large: nat)
    requires |names| == 7
    requires forall i :: 0 <= i < 7 ==> '\n' !in names[i]
    requires '\n' !in number
    ensures var r := DeadCodeSnippets(names, small, flag, number, large);
      (forall i :: 0 <= i < 7 ==> '\n' !in r[i])
      && (forall i :: 0 <= i < 7 && i != 4 ==> Contains(r[i], "local " + names[i]))
      && StartsWith(r[4], "-- " + names[4])
  {
    SnippetsOneLine(names, small, flag, number, large);
    SnippetsDeclare(names, small, flag, number, large);
  }

  lemma SnippetsOneLine(names: seq<string>, small: nat, flag: bool, number: string, large: nat)
    requires |names| == 7
    requires forall i :: 0 <= i < 7 ==> '\n' !in names[i]
    requires '\n' !in number
    ensures var r := DeadCodeSnippets(names, small, flag, number, large);
      forall i :: 0 <= i < 7 ==> '\n' !in r[i]
  {
    var r := DeadCodeSnippets(names, small, flag, number, large);
    DigitsNoLineFeed(NatToString(small));
    DigitsNoLineFeed(NatToString(large));
    assert '\n' !in BoolText(flag);
    SnippetPiecesOneLine();
  }

  /** None of the fixed pieces of the snippets holds a line feed. */
  lemma SnippetPiecesOneLine()
    ensures '\n' !in "local " && '\n' !in " = " && '\n' !in "if (" && '\n' !in ") then local "
    ensures '\n' !in " = nil end" && '\n' !in " = function() return nil end" && '\n' !in "do local "
    ensures '\n' !in " end" && '\n' !in "-- " && '\n' !in " = {}"
    ensures '\n' !in "if false then local " && '\n' !in " = \"unused\" end"
  {
    OpeningPiecesOneLine();
    ClosingPiecesOneLine();
  }

  lemma OpeningPiecesOneLine()
    ensures '\n' !in "local " && '\n' !in "if (" && '\n' !in ") then "
    ensures '\n' !in "do " && '\n' !in "-- " && '\n' !in "if false then "
  {
  }

  lemma ClosingPiecesOneLine()
    ensures '\n' !in " = " && '\n' !in " = nil end" && '\n' !in " = function() return nil end"
    ensures '\n' !in " end" && '\n' !in " = {}" && '\n' !in " = \"unused\" end"
  {
  }

  lemma SnippetsDeclare(names: seq<string>, small: nat, flag: bool, number: string, large: nat)
    requires |names| == 7
    ensures var r := DeadCodeSnippets(names, small, flag, number, large);
      (forall i :: 0 <= i < 7 && i != 4 ==> Contains(r[i], "local " + names[i]))
      && StartsWith(r[4], "-- " + names[4])
  {
    ContainsFront("local " + names[0], " = " + NatToString(small));
    ContainsMiddle("if (" + BoolText(flag) + ") then ", "local " + names[1], " = nil end");
    ContainsFront("local " + names[2], " = function() return nil end");
    ContainsMiddle("do ", "local " + names[3], " = " + number + " end");
    ContainsFront("local " + names[5], " = {}");
    ContainsMiddle("if false then ", "local " + names[6], " = \"unused\" end");
    var r4 := ("-- " + names[4]) + (" = " + NatToString(large));
    assert r4[..|"-- " + names[4]|] == "-- " + names[4];
  }

  lemma DigitsNoLineFeed(s: string)
    requires forall i :: 0 <= i < |s| ==> IsDigit(s[i])
    ensures '\n' !in s
  {
  }

  /** The line the control-flow pass inserts: a dummy condition guarding a local. */
  function DummyCondition(flag: bool, name: string, value: nat): string {
    ("if " + BoolText(flag) + " then ") + ("local " + name) + (" = " + NatToString(value) + " end")
  }

  /** The dummy condition is one line that declares its name. */
  lemma DummyConditionShape(flag: bool, name: string, value: nat)
    requires '\n' !in name
    ensures '\n' !in DummyCondition(flag, name, value)
    ensures Contains(DummyCondition(flag, name, value), "local " + name)
  {
    DigitsNoLineFeed(NatToString(value));
    assert '\n' !in BoolText(flag);
    assert '\n' !in "if " && '\n' !in " then " && '\n' !in "local " && '\n' !in " = " && '\n' !in " end";
    ContainsMiddle("if " + BoolText(flag) + " then ", "local " + name, " = " + NatToString(value) + " end");
  }

  // ---------------------------------------------------------------- header

  /** The substrings whose presence marks a Roblox script. */
  const RobloxPatterns: seq<string> := [
    "game.", "workspace.", "script.", "players.", "Instance.new",
    "Wait(", "wait(", "spawn(", "delay(", "LoadLibrary"
  ]

  /** `patterns.some(p => p.test(code))` for patterns that are plain substrings. */
  function AnyOccurs(code: string, patterns: seq<string>): (b: bool)
    ensures b <==> exists i :: 0 <= i < |patterns| && Contains(code, patterns[i])
    decreases |patterns|
  {
    if patterns == [] then false
    else if Contains(code, patterns[0]) then true
    else
      var b := AnyOccurs(code, patterns[1..]);
      assert forall i :: 1 <= i < |patterns| ==> patterns[i] == patterns[1..][i - 1];
      b
  }

  /** `isRobloxScript` */
  function IsRobloxScript(code: string): (b: bool)
    ensures b <==> exists i :: 0 <= i < |RobloxPatterns| && Contains(code, RobloxPatterns[i])
  {
    AnyOccurs(code, RobloxPatterns)
  }

  /** The two header lines, with the generation time as given. */
  function Header(isRoblox: bool, timestamp: string): string {
    "-- " + Kind(isRoblox) + " Obfuscator (Anti-Deobfuscation)\n-- Generated: " + timestamp + "\n"
  }

  function Kind(isRoblox: bool): string {
    if isRoblox then "Roblox" else "Lua"
  }

  /** The header's first line names Roblox exactly for Roblox scripts (and Lua
      otherwise), and the header ends with a line feed so the body starts on
      its own line. */
  lemma HeaderNamesKind(isRoblox: bool, timestamp: string)
    ensures StartsWith(Header(isRoblox, timestamp), "-- Roblox") <==> isRoblox
    ensures StartsWith(Header(isRoblox, timestamp), "-- Lua") <==> !isRoblox
    ensures var h := Header(isRoblox, timestamp); h[|h| - 1] == '\n'
  {
    var h := Header(isRoblox, timestamp);
    var head := "-- " + Kind(isRoblox);
    var tail := " Obfuscator (Anti-Deobfuscation)\n-- Generated: " + timestamp + "\n";
    assert h == head + tail;
    assert h[..|head|] == head;
    assert h[3] == Kind(isRoblox)[0];
    if isRoblox {
      assert head == "-- Roblox";
    } else {
      assert head == "-- Lua";
    }
  }
}
