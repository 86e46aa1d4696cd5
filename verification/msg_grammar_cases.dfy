/**
 * The message definitions of the parser's unit tests in
 * frost-codegen/src/parsing.rs (lines 101-248), written as the lines they are
 * made of, and the statements the grammar reads from them.
 */
module MsgGrammarCases {
  import opened Wrappers
  import opened Text
  import opened MsgGrammar

  /** The indentation the test texts carry on every line after the first. */
  const Indent: string := "        "

  function Plain(name: string): TypeText {
    TypeText(None, name, None)
  }

  lemma WellFormedSuffix(ls: seq<Line>, k: nat)
    requires WellFormedLines(ls) && k <= |ls|
    ensures WellFormedLines(ls[k..])
  {
    assert forall i | 0 <= i < |ls[k..]| :: ls[k..][i] == ls[k + i];
  }

  /** The statements of a definition, line by line from the back. */
  lemma StatementsFrom(ls: seq<Line>, k: nat, rest: seq<Statement>)
    requires WellFormedLines(ls) && k < |ls|
    requires WellFormedLines(ls[k + 1..]) && StatementsOf(ls[k + 1..]) == rest
    ensures WellFormedLines(ls[k..]) && StatementsOf(ls[k..]) == LineStatements(ls[k]) + rest
  {
    WellFormedSuffix(ls, k);
    assert ls[k..][1..] == ls[k + 1..];
  }

  /** The definition of `test_parse_field`, line by line, over its indentation and comment texts. */
  function FieldTestLines(w: string, c: seq<string>): seq<Line>
    requires |c| == 4
  {
    [CommentLine("", c[0]),
     CommentLine(w, c[1]),
     FieldLine(w, Plain("time"), "start", Some(c[2])),
     CommentLine(w, c[3]),
     FieldLine(w, Plain("uint32"), "world3", None)]
  }

  predicate NoNewlines(c: seq<string>) {
    forall k | 0 <= k < |c| :: '\n' !in c[k]
  }

  lemma FieldTestWellFormed(w: string, c: seq<string>)
    requires AllWhitespace(w) && |c| == 4 && NoNewlines(c)
    ensures WellFormedLines(FieldTestLines(w, c))
  {
    assert IsIdent("time") && IsIdent("start") && IsIdent("uint32") && IsIdent("world3");
  }

  lemma FieldTestStatements(w: string, c: seq<string>)
    requires AllWhitespace(w) && |c| == 4 && NoNewlines(c)
    ensures WellFormedLines(FieldTestLines(w, c))
    ensures StatementsOf(FieldTestLines(w, c))
         == [Field(MsgType(None, "time", false, None), "start"),
             Field(MsgType(None, "uint32", false, None), "world3")]
  {
    var ls := FieldTestLines(w, c);
    FieldTestWellFormed(w, c);
    var f0 := Field(MsgType(None, "time", false, None), "start");
    var f1 := Field(MsgType(None, "uint32", false, None), "world3");
    WellFormedSuffix(ls, 5);
    StatementsFrom(ls, 4, []);
    StatementsFrom(ls, 3, [f1]);
    StatementsFrom(ls, 2, [f1]);
    StatementsFrom(ls, 1, [f0, f1]);
    StatementsFrom(ls, 0, [f0, f1]);
    assert ls[0..] == ls;
  }

  /**
   * `test_parse_field`: comment lines, a field with a comment right after its
   * name, and trailing indentation; the comments and whitespace are skipped,
   * whatever the comments say and however deep the indentation.
   */
  lemma FieldsBetweenComments(w: string, c: seq<string>)
    requires AllWhitespace(w) && |c| == 4 && NoNewlines(c)
    ensures Parse(RenderLines(FieldTestLines(w, c)) + w)
         == [Field(MsgType(None, "time", false, None), "start"),
             Field(MsgType(None, "uint32", false, None), "world3")]
  {
    FieldTestStatements(w, c);
    RenderedThenWhitespace(FieldTestLines(w, c), w);
  }

  /** `test_parse_field` with the test's own indentation and comments. */
  lemma FieldTestText()
    ensures Parse(RenderLines(FieldTestLines(Indent, [" this is a comment", "another comment ", "comment", " comment comment"])) + Indent)
         == [Field(MsgType(None, "time", false, None), "start"),
             Field(MsgType(None, "uint32", false, None), "world3")]
  {
    var c := [" this is a comment", "another comment ", "comment", " comment comment"];
    assert AllWhitespace(Indent);
    assert NoNewlines(c) by {
      assert '\n' !in c[0] && '\n' !in c[1] && '\n' !in c[2] && '\n' !in c[3];
    }
    FieldsBetweenComments(Indent, c);
  }

  /** The definition of `test_parse_array`, line by line, over its indentation and comment texts. */
  function ArrayTestLines(w: string, c: seq<string>): seq<Line>
    requires |c| == 3
  {
    [CommentLine("", c[0]),
     CommentLine(w, c[1]),
     FieldLine(w, TypeText(None, "uint8", Some(None)), "numbers", None),
     FieldLine(w, TypeText(None, "uint16", Some(Some("10"))), "ten_numbers", None),
     CommentLine(w, c[2]),
     BlankLine(w)]
  }

  /** The two array fields of `test_parse_array` and the statements they stand for. */
  lemma ArrayFields(w: string)
    requires AllWhitespace(w)
    ensures WellFormedLine(FieldLine(w, TypeText(None, "uint8", Some(None)), "numbers", None))
    ensures LineStatements(FieldLine(w, TypeText(None, "uint8", Some(None)), "numbers", None))
         == [Field(MsgType(None, "uint8", true, None), "numbers")]
    ensures WellFormedLine(FieldLine(w, TypeText(None, "uint16", Some(Some("10"))), "ten_numbers", None))
    ensures LineStatements(FieldLine(w, TypeText(None, "uint16", Some(Some("10"))), "ten_numbers", None))
         == [Field(MsgType(None, "uint16", true, Some(10)), "ten_numbers")]
  {
    assert IsIdent("uint8") && IsIdent("numbers") && IsIdent("uint16") && IsIdent("ten_numbers");
    assert AllDigits("10");
    assert DigitsValue("10") == 10 by {
      assert "10"[..1] == "1";
    }
  }

  lemma ArrayTestWellFormed(w: string, c: seq<string>)
    requires AllWhitespace(w) && |c| == 3 && NoNewlines(c)
    ensures WellFormedLines(ArrayTestLines(w, c))
  {
    ArrayFields(w);
  }

  /** From the first array field on, the definition of `test_parse_array` holds both fields. */
  lemma ArrayTestTail(w: string, c: seq<string>)
    requires AllWhitespace(w) && |c| == 3 && NoNewlines(c)
    ensures WellFormedLines(ArrayTestLines(w, c))
    ensures WellFormedLines(ArrayTestLines(w, c)[2..])
    ensures StatementsOf(ArrayTestLines(w, c)[2..])
         == [Field(MsgType(None, "uint8", true, None), "numbers"),
             Field(MsgType(None, "uint16", true, Some(10)), "ten_numbers")]
  {
    var ls := ArrayTestLines(w, c);
    ArrayTestWellFormed(w, c);
    ArrayFields(w);
    var f0 := Field(MsgType(None, "uint8", true, None), "numbers");
    var f1 := Field(MsgType(None, "uint16", true, Some(10)), "ten_numbers");
    WellFormedSuffix(ls, 6);
    StatementsFrom(ls, 5, []);
    StatementsFrom(ls, 4, []);
    StatementsFrom(ls, 3, []);
    StatementsFrom(ls, 2, [f1]);
  }

  lemma ArrayTestStatements(w: string, c: seq<string>)
    requires AllWhitespace(w) && |c| == 3 && NoNewlines(c)
    ensures WellFormedLines(ArrayTestLines(w, c))
    ensures StatementsOf(ArrayTestLines(w, c))
         == [Field(MsgType(None, "uint8", true, None), "numbers"),
             Field(MsgType(None, "uint16", true, Some(10)), "ten_numbers")]
  {
    var ls := ArrayTestLines(w, c);
    ArrayTestTail(w, c);
    var fs := [Field(MsgType(None, "uint8", true, None), "numbers"),
               Field(MsgType(None, "uint16", true, Some(10)), "ten_numbers")];
    StatementsFrom(ls, 1, fs);
    StatementsFrom(ls, 0, fs);
    assert ls[0..] == ls;
  }

  /**
   * `test_parse_array`: `[]` reads as an array without a size and `[10]` as
   * an array of ten; comment and blank lines around them are skipped.
   */
  lemma ArraysBetweenComments(w: string, c: seq<string>)
    requires AllWhitespace(w) && |c| == 3 && NoNewlines(c)
    ensures Parse(RenderLines(ArrayTestLines(w, c)) + w)
         == [Field(MsgType(None, "uint8", true, None), "numbers"),
             Field(MsgType(None, "uint16", true, Some(10)), "ten_numbers")]
  {
    ArrayTestStatements(w, c);
    RenderedThenWhitespace(ArrayTestLines(w, c), w);
  }

  /** `test_parse_array` with the test's own indentation and comments. */
  lemma ArrayTestText()
    ensures Parse(RenderLines(ArrayTestLines(Indent, [" this is a comment", "another comment ", " comment comment"])) + Indent)
         == [Field(MsgType(None, "uint8", true, None), "numbers"),
             Field(MsgType(None, "uint16", true, Some(10)), "ten_numbers")]
  {
    var c := [" this is a comment", "another comment ", " comment comment"];
    assert AllWhitespace(Indent);
    assert NoNewlines(c) by {
      assert '\n' !in c[0] && '\n' !in c[1] && '\n' !in c[2];
    }
    ArraysBetweenComments(Indent, c);
  }

  function Custom(name: string, brackets: Option<Option<string>>): TypeText {
    TypeText(Some("custom_pkg"), name, brackets)
  }

  /** The first line of `test_parse_package` and the field it stands for. */
  lemma PackageFirstLine()
    ensures WellFormedLines([FieldLine("", Custom("SomeMsg", None), "data", None)])
    ensures StatementsOf([FieldLine("", Custom("SomeMsg", None), "data", None)])
         == [Field(MsgType(Some("custom_pkg"), "SomeMsg", false, None), "data")]
  {
    var ls := [FieldLine("", Custom("SomeMsg", None), "data", None)];
    assert IsIdent("custom_pkg") && IsIdent("SomeMsg") && IsIdent("data");
    assert AllWhitespace("");
    assert ls[1..] == [];
  }

  /** The second field type of `test_parse_package`: an array of 255 messages from another package. */
  lemma PackageArrayType()
    ensures WellFormedType(Custom("SomeMsgArr", Some(Some("255"))))
    ensures TypeOf(Custom("SomeMsgArr", Some(Some("255"))))
         == MsgType(Some("custom_pkg"), "SomeMsgArr", true, Some(255))
  {
    assert IsIdent("custom_pkg") && IsIdent("SomeMsgArr") && AllDigits("255");
    assert DigitsValue("255") == 255 by {
      assert "255"[..2] == "25" && "25"[..1] == "2";
    }
  }

  /**
   * `test_parse_package`: package-qualified field types, the second one an
   * array of 255; the stray `"` after the last field ends the parse without
   * an error.
   */
  lemma PackageFields()
    ensures Parse(RenderLines([FieldLine("", Custom("SomeMsg", None), "data", None)])
                  + (Indent + (RenderType(Custom("SomeMsgArr", Some(Some("255")))) + " " + "arr" + "\"\n" + Indent)))
         == [Field(MsgType(Some("custom_pkg"), "SomeMsg", false, None), "data"),
             Field(MsgType(Some("custom_pkg"), "SomeMsgArr", true, Some(255)), "arr")]
  {
    var ls := [FieldLine("", Custom("SomeMsg", None), "data", None)];
    var ty := Custom("SomeMsgArr", Some(Some("255")));
    var junk := "\"\n" + Indent;
    PackageFirstLine();
    PackageArrayType();
    assert IsIdent("arr");
    assert AllWhitespace(Indent);
    assert junk[0] == '"';
    assert RenderType(ty) + " " + "arr" + "\"\n" + Indent == RenderType(ty) + " " + "arr" + junk;
    FieldThenStrayText(ls, Indent, ty, "arr", junk);
  }

  /** The definition of `test_parse_constant`, line by line, over its indentation and raw values. */
  function ConstantTestLines(w: string, v: seq<string>): seq<Line>
    requires |v| == 3
  {
    [ConstantLine("", Custom("SomeMsg", None), "data", v[0]),
     ConstantLine(w, Plain("int32"), "Y", v[1]),
     ConstantLine(w, Plain("string"), "EXAMPLE", v[2])]
  }

  lemma ConstantTestWellFormed(w: string, v: seq<string>)
    requires AllWhitespace(w) && |v| == 3 && NoNewlines(v)
    ensures WellFormedLines(ConstantTestLines(w, v))
  {
    assert IsIdent("custom_pkg") && IsIdent("SomeMsg") && IsIdent("data");
    assert IsIdent("int32") && IsIdent("Y") && IsIdent("string") && IsIdent("EXAMPLE");
    assert AllWhitespace("");
  }

  lemma ConstantTestStatements(w: string, v: seq<string>)
    requires AllWhitespace(w) && |v| == 3 && NoNewlines(v)
    ensures WellFormedLines(ConstantTestLines(w, v))
    ensures StatementsOf(ConstantTestLines(w, v))
         == [Constant(MsgType(Some("custom_pkg"), "SomeMsg", false, None), "data", Trim(v[0])),
             Constant(MsgType(None, "int32", false, None), "Y", Trim(v[1])),
             Constant(MsgType(None, "string", false, None), "EXAMPLE", Trim(v[2]))]
  {
    var ls := ConstantTestLines(w, v);
    ConstantTestWellFormed(w, v);
    var c0 := Constant(MsgType(Some("custom_pkg"), "SomeMsg", false, None), "data", Trim(v[0]));
    var c1 := Constant(MsgType(None, "int32", false, None), "Y", Trim(v[1]));
    var c2 := Constant(MsgType(None, "string", false, None), "EXAMPLE", Trim(v[2]));
    WellFormedSuffix(ls, 3);
    StatementsFrom(ls, 2, []);
    StatementsFrom(ls, 1, [c2]);
    StatementsFrom(ls, 0, [c1, c2]);
    assert ls[0..] == ls;
  }

  /**
   * `test_parse_constant`: a constant's value is the rest of its line,
   * trimmed, and a `#` inside it does not start a comment.
   */
  lemma ConstantsTrimmed(w: string, v: seq<string>)
    requires AllWhitespace(w) && |v| == 3 && NoNewlines(v)
    ensures Parse(RenderLines(ConstantTestLines(w, v)) + w)
         == [Constant(MsgType(Some("custom_pkg"), "SomeMsg", false, None), "data", Trim(v[0])),
             Constant(MsgType(None, "int32", false, None), "Y", Trim(v[1])),
             Constant(MsgType(None, "string", false, None), "EXAMPLE", Trim(v[2]))]
  {
    ConstantTestStatements(w, v);
    RenderedThenWhitespace(ConstantTestLines(w, v), w);
  }

  /** The value of the test's string constant, as it reads after trimming. */
  const Example: string := "\"#comments\" are ignored, " + "and leading and trailing " + "whitespace removed"

  /** The test's string constant is one line, and trimming leaves it as it is. */
  lemma ExampleOneLine()
    ensures '\n' !in Example && '\n' !in Example + "   "
    ensures Trim(Example + "   ") == Example
  {
    assert '\n' !in "\"#comments\" are ignored, ";
    assert '\n' !in "and leading and trailing ";
    assert '\n' !in "whitespace removed";
    assert Example[0] == '"' && Example[|Example| - 1] == 'd';
    assert AllWhitespace([]) && AllWhitespace("   ");
    TrimStrips([], Example, "   ");
    assert [] + Example + "   " == Example + "   ";
  }

  /** The raw values of `test_parse_constant`, as its lines hold them after `=`. */
  const ConstantTestValues: seq<string> := ["bar", "-123", Example + "   "]

  lemma ConstantTestValuesTrimmed()
    ensures |ConstantTestValues| == 3 && NoNewlines(ConstantTestValues)
    ensures Trim(ConstantTestValues[0]) == "bar"
    ensures Trim(ConstantTestValues[1]) == "-123"
    ensures Trim(ConstantTestValues[2]) == Example
  {
    ExampleOneLine();
    assert '\n' !in "bar" && '\n' !in "-123";
    assert AllWhitespace([]);
    TrimStrips([], "bar", []);
    assert [] + "bar" + [] == "bar";
    TrimStrips([], "-123", []);
    assert [] + "-123" + [] == "-123";
  }

  /** `test_parse_constant` with the test's own indentation and values. */
  lemma ConstantTestText()
    ensures Parse(RenderLines(ConstantTestLines(Indent, ConstantTestValues)) + Indent)
         == [Constant(MsgType(Some("custom_pkg"), "SomeMsg", false, None), "data", "bar"),
             Constant(MsgType(None, "int32", false, None), "Y", "-123"),
             Constant(MsgType(None, "string", false, None), "EXAMPLE", Example)]
  {
    ConstantTestValuesTrimmed();
    assert AllWhitespace(Indent);
    ConstantsTrimmed(Indent, ConstantTestValues);
  }
}
