/** The two templates that ship with scripts/luaz_gen.py, character for character: both meet the
    condition under which its textual replacements are exact. */
module TemplateFiles {
  import Bytes
  import opened Wrappers
  import opened Template

  // ---------------------------------------------------------------- the source template

  const PURPOSE_1 := "brief CMake configure_file template "
  const PURPOSE_2 := "for embedding a Lua script as "
  const PURPOSE_3 := "a C string.\n *\n * Placeholders "
  const PURPOSE := PURPOSE_1 + (PURPOSE_2 + PURPOSE_3)

  const ORIGIN_1 := " are substituted by CMake's\n * "
  const ORIGIN_2 := "configure_file when luaz_add_file() "
  const ORIGIN_3 := "is called from lua.cmake.\n * The "
  const ORIGIN_4 := "generated header provides a const "
  const ORIGIN_5 := "char[] containing the Lua source.\n"
  const ORIGIN_6 := " */\n\n/* clang-format off */\n#ifndef LUA_"
  const ORIGIN := ORIGIN_1 + (ORIGIN_2 + (ORIGIN_3 + (ORIGIN_4 + (ORIGIN_5 + ORIGIN_6))))

  // templates/lua_template.h.in, from its end to its beginning.
  const TAIL: Template := Text(" */\n\n/* clang-format on */\n")
  const AFTER_SCRIPT: Template := Hole("\";\n\n#endif /* LUA_", "FILE_NAME", TAIL)
  const SCRIPT: Template := Hole("_lua_script[] = \"", "LUA_CONTENT", AFTER_SCRIPT)
  const DECLARATION: Template := Hole("\n\nconst char ", "FILE_NAME", SCRIPT)
  const GUARD: Template := Hole("\n#define LUA_", "FILE_NAME", DECLARATION)
  const CODE: Template := Hole(ORIGIN, "FILE_NAME", GUARD)
  const CONTENT_NAMED: Template := Hole(" and ", "LUA_CONTENT", CODE)
  const BRIEF: Template := Hole(PURPOSE, "FILE_NAME", CONTENT_NAMED)
  const FILE: Template := Stray("file lua_template.h.in\n * ", BRIEF)
  const HEADER: Template := Stray("/**\n * ", FILE)

  lemma {:induction false} NoMark(a: string, b: string)
    requires '@' !in a && '@' !in b
    ensures '@' !in a + b
  {
  }

  lemma {:induction false} PurposePlain()
    ensures '@' !in PURPOSE && |PURPOSE| > 0 && !NameChar(PURPOSE[0])
  {
    assert PURPOSE[0] == PURPOSE_1[0];
    NoMark(PURPOSE_2, PURPOSE_3);
    NoMark(PURPOSE_1, PURPOSE_2 + PURPOSE_3);
  }

  lemma {:induction false} OriginStartPlain()
    ensures '@' !in ORIGIN_1 && '@' !in ORIGIN_2
  {
  }

  lemma {:induction false} OriginMiddlePlain()
    ensures '@' !in ORIGIN_3 && '@' !in ORIGIN_4
  {
  }

  lemma {:induction false} OriginEndPlain()
    ensures '@' !in ORIGIN_5 && '@' !in ORIGIN_6
  {
  }

  lemma {:induction false} OriginPlain()
    ensures '@' !in ORIGIN && |ORIGIN| > 0 && !NameChar(ORIGIN[0])
  {
    OriginStartPlain();
    OriginMiddlePlain();
    OriginEndPlain();
    assert ORIGIN[0] == ORIGIN_1[0];
    NoMark(ORIGIN_5, ORIGIN_6);
    NoMark(ORIGIN_4, ORIGIN_5 + ORIGIN_6);
    NoMark(ORIGIN_3, ORIGIN_4 + (ORIGIN_5 + ORIGIN_6));
    NoMark(ORIGIN_2, ORIGIN_3 + (ORIGIN_4 + (ORIGIN_5 + ORIGIN_6)));
    NoMark(ORIGIN_1, ORIGIN_2 + (ORIGIN_3 + (ORIGIN_4 + (ORIGIN_5 + ORIGIN_6))));
  }

  lemma {:induction false} TailClean()
    ensures Clean(TAIL)
  {
  }

  lemma {:induction false} AfterScriptClean()
    ensures Clean(AFTER_SCRIPT)
  {
    TailClean();
    hide Clean;
    CleanHole("\";\n\n#endif /* LUA_", "FILE_NAME", TAIL, 0);
  }

  lemma {:induction false} ScriptClean()
    ensures Clean(SCRIPT)
  {
    AfterScriptClean();
    hide Clean;
    CleanHole("_lua_script[] = \"", "LUA_CONTENT", AFTER_SCRIPT, 0);
  }

  lemma {:induction false} DeclarationClean()
    ensures Clean(DECLARATION)
  {
    ScriptClean();
    hide Clean;
    CleanHole("\n\nconst char ", "FILE_NAME", SCRIPT, 2);
  }

  lemma {:induction false} GuardClean()
    ensures Clean(GUARD)
  {
    DeclarationClean();
    hide Clean;
    CleanHole("\n#define LUA_", "FILE_NAME", DECLARATION, 0);
  }

  lemma {:induction false} CodeClean()
    ensures Clean(CODE)
  {
    GuardClean();
    hide Clean;
    OriginPlain();
    CleanHole(ORIGIN, "FILE_NAME", GUARD, 0);
  }

  lemma {:induction false} ContentNamedClean()
    ensures Clean(CONTENT_NAMED)
  {
    CodeClean();
    hide Clean;
    OriginPlain();
    CleanHole(" and ", "LUA_CONTENT", CODE, 0);
  }

  lemma {:induction false} BriefClean()
    ensures Clean(BRIEF)
  {
    ContentNamedClean();
    hide Clean;
    PurposePlain();
    CleanHole(PURPOSE, "FILE_NAME", CONTENT_NAMED, 0);
  }

  lemma {:induction false} FileClean()
    ensures Clean(FILE)
  {
    BriefClean();
    hide Clean;
    PurposePlain();
    CleanStray("file lua_template.h.in\n * ", BRIEF, 0);
  }

  /** The whole shipped template, its comment included, meets the condition under which the
      replacements are exact. */
  lemma {:induction false} HeaderClean()
    ensures Clean(HEADER)
  {
    FileClean();
    hide Clean;
    CleanStray("/**\n * ", FILE, 0);
  }

  lemma {:induction false} CleanHole(text: string, name: string, rest: Template, k: nat)
    requires '@' !in text && Name(name) && Clean(rest)
    requires rest.Text? || (k < |rest.text| && !NameChar(rest.text[k]))
    ensures Clean(Hole(text, name, rest))
  {
  }

  lemma {:induction false} CleanStray(text: string, rest: Template, k: nat)
    requires '@' !in text && Clean(rest)
    requires rest.Text? || (k < |rest.text| && !NameChar(rest.text[k]))
    ensures Clean(Stray(text, rest))
  {
  }

  // ---------------------------------------------------------------- what is generated from it

  lemma {:induction false} RenderHole(text: string, name: string, rest: Template, m: map<string, string>, value: string)
    requires name in m && m[name] == value
    ensures Render(Hole(text, name, rest)) == text + (Mark(name) + Render(rest))
    ensures Render(Fill(Hole(text, name, rest), m)) == text + value + Render(Fill(rest, m))
  {
    hide Fill;
    assert Fill(Hole(text, name, rest), m) == Prefix(text + m[name], Fill(rest, m)) by {
      FillHole(text, name, rest, m);
    }
    RenderPrefix(text + m[name], Fill(rest, m));
  }

  lemma {:induction false} FillHole(text: string, name: string, rest: Template, m: map<string, string>)
    requires name in m
    ensures Fill(Hole(text, name, rest), m) == Prefix(text + m[name], Fill(rest, m))
  {
  }

  lemma {:induction false} RenderStray(text: string, rest: Template, m: map<string, string>)
    ensures Render(Stray(text, rest)) == text + ("@" + Render(rest))
    ensures Render(Fill(Stray(text, rest), m)) == text + ("@" + Render(Fill(rest, m)))
  {
  }

  /** The template as a file, ... */
  const HEADER_TEXT: string :=
    "/**\n * " + ("@" + ("file lua_template.h.in\n * " + ("@" + (PURPOSE + ("@FILE_NAME@"
    + (" and " + ("@LUA_CONTENT@" + (ORIGIN + ("@FILE_NAME@"
    + ("\n#define LUA_" + ("@FILE_NAME@" + ("\n\nconst char " + ("@FILE_NAME@"
    + ("_lua_script[] = \"" + ("@LUA_CONTENT@" + ("\";\n\n#endif /* LUA_" + ("@FILE_NAME@"
    + " */\n\n/* clang-format on */\n")))))))))))))))))

  /** ... and the header generated from it for a script with this name and literal. */
  function HeaderFor(name: string, content: string): string
  {
    "/**\n * " + ("@" + ("file lua_template.h.in\n * " + ("@" + (PURPOSE + name
    + (" and " + content + (ORIGIN + name
    + ("\n#define LUA_" + name + ("\n\nconst char " + name
    + ("_lua_script[] = \"" + content + ("\";\n\n#endif /* LUA_" + name
    + " */\n\n/* clang-format on */\n"))))))))))
  }

  lemma {:induction false} Marks()
    ensures Mark("FILE_NAME") == "@FILE_NAME@" && Mark("LUA_CONTENT") == "@LUA_CONTENT@"
  {
  }

  lemma {:induction false} BytecodeMarks()
    ensures Mark("LUA_BYTECODE") == "@LUA_BYTECODE@" && Mark("LUA_BYTECODE_LEN") == "@LUA_BYTECODE_LEN@"
  {
  }

  /** The template holds the marks the script replaces, and filling it gives the header. */
  lemma {:induction false} HeaderText(m: map<string, string>, name: string, content: string)
    requires "FILE_NAME" in m && m["FILE_NAME"] == name && "LUA_CONTENT" in m && m["LUA_CONTENT"] == content
    ensures Render(HEADER) == HEADER_TEXT
    ensures Render(Fill(HEADER, m)) == HeaderFor(name, content)
  {
    assert Render(TAIL) == Render(Fill(TAIL, m)) == " */\n\n/* clang-format on */\n";
    hide Render, Fill, Mark;
    Marks();
    RenderHole("\";\n\n#endif /* LUA_", "FILE_NAME", TAIL, m, name);
    RenderHole("_lua_script[] = \"", "LUA_CONTENT", AFTER_SCRIPT, m, content);
    RenderHole("\n\nconst char ", "FILE_NAME", SCRIPT, m, name);
    RenderHole("\n#define LUA_", "FILE_NAME", DECLARATION, m, name);
    RenderHole(ORIGIN, "FILE_NAME", GUARD, m, name);
    RenderHole(" and ", "LUA_CONTENT", CODE, m, content);
    RenderHole(PURPOSE, "FILE_NAME", CONTENT_NAMED, m, name);
    RenderStray("file lua_template.h.in\n * ", BRIEF, m);
    RenderStray("/**\n * ", FILE, m);
  }

  /** Source mode on the shipped template. */
  method GenerateHeader(name: string, upper: string, content: string) returns (output: string)
    ensures '@' !in name && '@' !in upper ==> output == HeaderFor(name, content)
  {
    hide Clean, Render, Fill, HeaderFor;
    HeaderClean();
    HeaderText(map["FILE_NAME" := name, "FILE_NAME_UPPER" := upper, "LUA_CONTENT" := content], name, content);
    output := GenerateSource(HEADER_TEXT, name, upper, content);
  }

  // ---------------------------------------------------------------- the bytecode template

  const BYTES_PURPOSE_1 := "brief CMake configure_file template f"
  const BYTES_PURPOSE_2 := "or embedding Lua bytecode as a C arra"
  const BYTES_PURPOSE_3 := "y.\n *\n * Placeholders "
  const BYTES_PURPOSE := BYTES_PURPOSE_1 + (BYTES_PURPOSE_2 + BYTES_PURPOSE_3)

  const BYTES_ORIGIN_1 := " are\n * substituted by CMake's config"
  const BYTES_ORIGIN_2 := "ure_file when luaz_add_bytecode_file("
  const BYTES_ORIGIN_3 := ") is\n * called from lua.cmake.\n * The"
  const BYTES_ORIGIN_4 := " generated header provides a const ui"
  const BYTES_ORIGIN_5 := "nt8_t[] containing the bytecode.\n */\n"
  const BYTES_ORIGIN_6 := "\n/* clang-format off */\n#ifndef LUA_"
  const BYTES_ORIGIN := BYTES_ORIGIN_1 + (BYTES_ORIGIN_2 + (BYTES_ORIGIN_3 + (BYTES_ORIGIN_4 + (BYTES_ORIGIN_5 + BYTES_ORIGIN_6))))

  const BYTES_INCLUDES_1 := "_BYTECODE\n\n#include <stdint.h>\n#inclu"
  const BYTES_INCLUDES_2 := "de <stddef.h>\n\nstatic const uint8_t "
  const BYTES_INCLUDES := BYTES_INCLUDES_1 + BYTES_INCLUDES_2

  // templates/lua_bytecode_template.h.in, from its end to its beginning.
  const BYTECODE_PART_12: Template := Text("_BYTECODE */\n/* clang-format on */\n")
  const BYTECODE_PART_11: Template := Hole(";\n\n#endif /* LUA_", "FILE_NAME", BYTECODE_PART_12)
  const BYTECODE_PART_10: Template := Hole("_lua_bytecode_len = ", "LUA_BYTECODE_LEN", BYTECODE_PART_11)
  const BYTECODE_PART_9: Template := Hole(" };\nstatic const size_t ", "FILE_NAME", BYTECODE_PART_10)
  const BYTECODE_PART_8: Template := Hole("_lua_bytecode[] = { ", "LUA_BYTECODE", BYTECODE_PART_9)
  const BYTECODE_PART_7: Template := Hole(BYTES_INCLUDES, "FILE_NAME", BYTECODE_PART_8)
  const BYTECODE_PART_6: Template := Hole("_BYTECODE\n#define LUA_", "FILE_NAME", BYTECODE_PART_7)
  const BYTECODE_PART_5: Template := Hole(BYTES_ORIGIN, "FILE_NAME", BYTECODE_PART_6)
  const BYTECODE_PART_4: Template := Hole(", and ", "LUA_BYTECODE_LEN", BYTECODE_PART_5)
  const BYTECODE_PART_3: Template := Hole(", ", "LUA_BYTECODE", BYTECODE_PART_4)
  const BYTECODE_PART_2: Template := Hole(BYTES_PURPOSE, "FILE_NAME", BYTECODE_PART_3)
  const BYTECODE_PART_1: Template := Stray("file lua_bytecode_template.h.in\n * ", BYTECODE_PART_2)
  const BYTECODE_HEADER: Template := Stray("/**\n * ", BYTECODE_PART_1)

  lemma {:induction false} BytesPurposePlain1()
    ensures '@' !in BYTES_PURPOSE_1 && '@' !in BYTES_PURPOSE_2
  {
  }

  lemma {:induction false} BytesPurposePlain2()
    ensures '@' !in BYTES_PURPOSE_3
  {
  }

  lemma {:induction false} BytesPurposePlain()
    ensures '@' !in BYTES_PURPOSE && |BYTES_PURPOSE| > 0 && !NameChar(BYTES_PURPOSE[0])
  {
    BytesPurposePlain1();
    BytesPurposePlain2();
    assert BYTES_PURPOSE[0] == BYTES_PURPOSE_1[0];
    NoMark(BYTES_PURPOSE_2, BYTES_PURPOSE_3);
    NoMark(BYTES_PURPOSE_1, BYTES_PURPOSE_2 + BYTES_PURPOSE_3);
  }

  lemma {:induction false} BytesOriginPlain1()
    ensures '@' !in BYTES_ORIGIN_1 && '@' !in BYTES_ORIGIN_2
  {
  }

  lemma {:induction false} BytesOriginPlain2()
    ensures '@' !in BYTES_ORIGIN_3 && '@' !in BYTES_ORIGIN_4
  {
  }

  lemma {:induction false} BytesOriginPlain3()
    ensures '@' !in BYTES_ORIGIN_5 && '@' !in BYTES_ORIGIN_6
  {
  }

  lemma {:induction false} BytesOriginPlain()
    ensures '@' !in BYTES_ORIGIN && |BYTES_ORIGIN| > 0 && !NameChar(BYTES_ORIGIN[0])
  {
    BytesOriginPlain1();
    BytesOriginPlain2();
    BytesOriginPlain3();
    assert BYTES_ORIGIN[0] == BYTES_ORIGIN_1[0];
    NoMark(BYTES_ORIGIN_5, BYTES_ORIGIN_6);
    NoMark(BYTES_ORIGIN_4, BYTES_ORIGIN_5 + BYTES_ORIGIN_6);
    NoMark(BYTES_ORIGIN_3, BYTES_ORIGIN_4 + (BYTES_ORIGIN_5 + BYTES_ORIGIN_6));
    NoMark(BYTES_ORIGIN_2, BYTES_ORIGIN_3 + (BYTES_ORIGIN_4 + (BYTES_ORIGIN_5 + BYTES_ORIGIN_6)));
    NoMark(BYTES_ORIGIN_1, BYTES_ORIGIN_2 + (BYTES_ORIGIN_3 + (BYTES_ORIGIN_4 + (BYTES_ORIGIN_5 + BYTES_ORIGIN_6))));
  }

  lemma {:induction false} BytesIncludesPlain1()
    ensures '@' !in BYTES_INCLUDES_1 && '@' !in BYTES_INCLUDES_2
  {
  }

  lemma {:induction false} BytesIncludesPlain()
    ensures '@' !in BYTES_INCLUDES && |BYTES_INCLUDES| > 9 && !NameChar(BYTES_INCLUDES[9])
  {
    BytesIncludesPlain1();
    assert BYTES_INCLUDES[9] == BYTES_INCLUDES_1[9];
    NoMark(BYTES_INCLUDES_1, BYTES_INCLUDES_2);
  }

  lemma {:induction false} BytecodePart12Clean()
    ensures Clean(BYTECODE_PART_12)
  {
  }

  lemma {:induction false} BytecodePart11Clean()
    ensures Clean(BYTECODE_PART_11)
  {
    BytecodePart12Clean();
    hide Clean;
    CleanHole(";\n\n#endif /* LUA_", "FILE_NAME", BYTECODE_PART_12, 0);
  }

  lemma {:induction false} BytecodeText10()
    ensures '@' !in "_lua_bytecode_len = "
  {
  }

  lemma {:induction false} BytecodePart10Clean()
    ensures Clean(BYTECODE_PART_10)
  {
    hide Clean;
    BytecodePart11Clean();
    BytecodeText10();
    CleanHole("_lua_bytecode_len = ", "LUA_BYTECODE_LEN", BYTECODE_PART_11, 0);
  }

  lemma {:induction false} BytecodeText9()
    ensures '@' !in " };\nstatic const size_t "
  {
  }

  lemma {:induction false} BytecodePart9Clean()
    ensures Clean(BYTECODE_PART_9)
  {
    hide Clean;
    BytecodePart10Clean();
    BytecodeText9();
    CleanHole(" };\nstatic const size_t ", "FILE_NAME", BYTECODE_PART_10, 1);
  }

  lemma {:induction false} BytecodePart8Clean()
    ensures Clean(BYTECODE_PART_8)
  {
    BytecodePart9Clean();
    hide Clean;
    CleanHole("_lua_bytecode[] = { ", "LUA_BYTECODE", BYTECODE_PART_9, 0);
  }

  lemma {:induction false} BytecodePart7Clean()
    ensures Clean(BYTECODE_PART_7)
  {
    BytecodePart8Clean();
    BytesIncludesPlain();
    hide Clean;
    CleanHole(BYTES_INCLUDES, "FILE_NAME", BYTECODE_PART_8, 1);
  }

  lemma {:induction false} BytecodePart6Clean()
    ensures Clean(BYTECODE_PART_6)
  {
    BytecodePart7Clean();
    BytesIncludesPlain();
    hide Clean;
    CleanHole("_BYTECODE\n#define LUA_", "FILE_NAME", BYTECODE_PART_7, 9);
  }

  lemma {:induction false} BytecodePart5Clean()
    ensures Clean(BYTECODE_PART_5)
  {
    BytecodePart6Clean();
    BytesOriginPlain();
    hide Clean;
    CleanHole(BYTES_ORIGIN, "FILE_NAME", BYTECODE_PART_6, 9);
  }

  lemma {:induction false} BytecodePart4Clean()
    ensures Clean(BYTECODE_PART_4)
  {
    BytecodePart5Clean();
    BytesOriginPlain();
    hide Clean;
    CleanHole(", and ", "LUA_BYTECODE_LEN", BYTECODE_PART_5, 0);
  }

  lemma {:induction false} BytecodePart3Clean()
    ensures Clean(BYTECODE_PART_3)
  {
    BytecodePart4Clean();
    hide Clean;
    CleanHole(", ", "LUA_BYTECODE", BYTECODE_PART_4, 0);
  }

  lemma {:induction false} BytecodePart2Clean()
    ensures Clean(BYTECODE_PART_2)
  {
    BytecodePart3Clean();
    BytesPurposePlain();
    hide Clean;
    CleanHole(BYTES_PURPOSE, "FILE_NAME", BYTECODE_PART_3, 0);
  }

  lemma {:induction false} BytecodePart1Clean()
    ensures Clean(BYTECODE_PART_1)
  {
    BytecodePart2Clean();
    BytesPurposePlain();
    hide Clean;
    CleanStray("file lua_bytecode_template.h.in\n * ", BYTECODE_PART_2, 0);
  }

  /** The whole shipped bytecode template meets the condition as well, its comment with three
      placeholders included. */
  lemma {:induction false} BytecodeHeaderClean()
    ensures Clean(BYTECODE_HEADER)
  {
    BytecodePart1Clean();
    hide Clean;
    CleanStray("/**\n * ", BYTECODE_PART_1, 0);
  }

  /** The bytecode template as a file, ... */
  const BYTECODE_HEADER_TEXT: string :=
    "/**\n * " + ("@" + ("file lua_bytecode_template.h.in\n * " + ("@" + (BYTES_PURPOSE + ("@FILE_NAME@"
    + (", " + ("@LUA_BYTECODE@" + (", and " + ("@LUA_BYTECODE_LEN@" + (BYTES_ORIGIN + ("@FILE_NAME@"
    + ("_BYTECODE\n#define LUA_" + ("@FILE_NAME@" + (BYTES_INCLUDES + ("@FILE_NAME@"
    + ("_lua_bytecode[] = { " + ("@LUA_BYTECODE@" + (" };\nstatic const size_t " + ("@FILE_NAME@"
    + ("_lua_bytecode_len = " + ("@LUA_BYTECODE_LEN@" + (";\n\n#endif /* LUA_" + ("@FILE_NAME@"
    + "_BYTECODE */\n/* clang-format on */\n")))))))))))))))))))))))

  /** ... and the header generated from it for a name, a byte list and a length. */
  function BytecodeHeaderFor(name: string, list: string, length: string): string
  {
    "/**\n * " + ("@" + ("file lua_bytecode_template.h.in\n * " + ("@" + (BYTES_PURPOSE + name
    + (", " + list + (", and " + length + (BYTES_ORIGIN + name
    + ("_BYTECODE\n#define LUA_" + name + (BYTES_INCLUDES + name
    + ("_lua_bytecode[] = { " + list + (" };\nstatic const size_t " + name
    + ("_lua_bytecode_len = " + length + (";\n\n#endif /* LUA_" + name
    + "_BYTECODE */\n/* clang-format on */\n")))))))))))))
  }

  lemma {:induction false} BytecodeHeaderText(m: map<string, string>, name: string, list: string, length: string)
    requires "FILE_NAME" in m && m["FILE_NAME"] == name
    requires "LUA_BYTECODE" in m && m["LUA_BYTECODE"] == list
    requires "LUA_BYTECODE_LEN" in m && m["LUA_BYTECODE_LEN"] == length
    ensures Render(BYTECODE_HEADER) == BYTECODE_HEADER_TEXT
    ensures Render(Fill(BYTECODE_HEADER, m)) == BytecodeHeaderFor(name, list, length)
  {
    assert Render(BYTECODE_PART_12) == Render(Fill(BYTECODE_PART_12, m)) == "_BYTECODE */\n/* clang-format on */\n";
    hide Render, Fill, Mark;
    Marks();
    BytecodeMarks();
    RenderHole(";\n\n#endif /* LUA_", "FILE_NAME", BYTECODE_PART_12, m, name);
    RenderHole("_lua_bytecode_len = ", "LUA_BYTECODE_LEN", BYTECODE_PART_11, m, length);
    RenderHole(" };\nstatic const size_t ", "FILE_NAME", BYTECODE_PART_10, m, name);
    RenderHole("_lua_bytecode[] = { ", "LUA_BYTECODE", BYTECODE_PART_9, m, list);
    RenderHole(BYTES_INCLUDES, "FILE_NAME", BYTECODE_PART_8, m, name);
    RenderHole("_BYTECODE\n#define LUA_", "FILE_NAME", BYTECODE_PART_7, m, name);
    RenderHole(BYTES_ORIGIN, "FILE_NAME", BYTECODE_PART_6, m, name);
    RenderHole(", and ", "LUA_BYTECODE_LEN", BYTECODE_PART_5, m, length);
    RenderHole(", ", "LUA_BYTECODE", BYTECODE_PART_4, m, list);
    RenderHole(BYTES_PURPOSE, "FILE_NAME", BYTECODE_PART_3, m, name);
    RenderStray("file lua_bytecode_template.h.in\n * ", BYTECODE_PART_2, m);
    RenderStray("/**\n * ", BYTECODE_PART_1, m);
  }

  /** Bytecode mode on the shipped template: a compiler that reads the array and its length back
      finds the bytecode. */
  method GenerateBytecodeHeader(name: string, upper: string, data: seq<Bytes.Byte>)
    returns (output: string, ghost list: string, ghost length: string)
    ensures '@' !in name && '@' !in upper ==> output == BytecodeHeaderFor(name, list, length)
    ensures ParseList(list) == Some(data) && ParseDecimal(length) == Some(|data|)
  {
    hide Clean, Render, Fill, BytecodeHeaderFor, ParseList, ParseDecimal;
    list, length := HexList(data), Decimal(|data|);
    HexRoundTrip(data);
    LengthRoundTrip(|data|);
    BytecodeHeaderClean();
    BytecodeHeaderText(map["FILE_NAME" := name, "FILE_NAME_UPPER" := upper, "LUA_BYTECODE" := list, "LUA_BYTECODE_LEN" := length],
                       name, list, length);
    output := GenerateBytecode(BYTECODE_HEADER_TEXT, name, upper, data);
  }
}
