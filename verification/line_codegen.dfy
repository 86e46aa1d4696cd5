/**
 * The line-based generator of frost-codegen/src/main.rs: every line of a
 * `.msg` file becomes at most one struct field (`convert_line`), and the
 * fields of a file become a plain `pub struct` (`RosMsg::as_struct_definition`).
 * This generator does not know constants: a constant line becomes a field
 * whose name stops at the `=`.
 */
module LineCodegen {
  import opened Wrappers
  import opened Text
  import RustEmit

  /** `builtin_mappings` of this generator: the ROS primitive types and their Rust types. */
  const Builtins: map<string, string> := map[
    "bool" := "bool", "byte" := "u8", "char" := "char", "float32" := "f32", "float64" := "f64",
    "int8" := "i8", "int16" := "i16", "int32" := "i32", "int64" := "i64",
    "uint8" := "u8", "uint16" := "u16", "uint32" := "u32", "uint64" := "u64",
    "string" := "std::string::String",
    "time" := "frost::time::Time",
    "duration" := "frost::time::RosDuration"]

  /** The two generators map the same primitive types, except that only the newer one knows `Header`. */
  lemma BuiltinsWithoutHeader()
    ensures Builtins == RustEmit.Builtins - {"Header"}
    ensures "Header" in RustEmit.Builtins && "Header" !in Builtins
  {
  }

  /** A struct field: its Rust element type, its name, and whether it is a `Vec`. */
  datatype Field = Field(dataType: string, name: string, isArray: bool)

  predicate NotWhitespace(c: char) {
    !IsWhitespace(c)
  }

  /** A word as `str::split_whitespace` yields it: non-empty and free of whitespace. */
  predicate IsToken(t: string) {
    t != [] && forall i | 0 <= i < |t| :: !IsWhitespace(t[i])
  }

  /** `str::split_whitespace`: the maximal runs of non-whitespace characters, in order. */
  function Tokens(s: string): (r: seq<string>)
    ensures forall k | 0 <= k < |r| :: IsToken(r[k])
    decreases |s|
  {
    var a := SpanEnd(s, 0, IsWhitespace);
    if a == |s| then []
    else
      var b := SpanEnd(s, a, NotWhitespace);
      SpanEndAll(s, a, NotWhitespace);
      [s[a..b]] + Tokens(s[b..])
  }

  /** A text that begins with a non-whitespace character begins with its first token. */
  lemma TokensLead(s: string)
    requires s != [] && !IsWhitespace(s[0])
    ensures var e := SpanEnd(s, 0, NotWhitespace);
      0 < e && Tokens(s) == [s[..e]] + Tokens(s[e..])
  {
  }

  /** Leading whitespace contributes no token. */
  lemma TokensSkip(w: string, s: string)
    requires AllWhitespace(w)
    ensures Tokens(w + s) == Tokens(s)
  {
    var x := w + s;
    assert SpanEnd(x, 0, IsWhitespace) == |w| + SpanEnd(s, 0, IsWhitespace) by {
      assert forall k | 0 <= k < |w| :: IsWhitespace(x[k]);
      SpanEndSkips(x, 0, |w|, IsWhitespace);
      SpanEndShift(w, s, 0, IsWhitespace);
    }
    var a := SpanEnd(s, 0, IsWhitespace);
    if a < |s| {
      var b := SpanEnd(s, a, NotWhitespace);
      assert SpanEnd(x, |w| + a, NotWhitespace) == |w| + b by {
        SpanEndShift(w, s, a, NotWhitespace);
      }
      SliceShift(w, s, a, b);
      assert Tokens(x) == [x[|w| + a..|w| + b]] + Tokens(x[|w| + b..]);
    } else {
      assert Tokens(x) == [];
    }
  }

  /** A token followed by whitespace, or by nothing, is the first token. */
  lemma TokenThen(t: string, rest: string)
    requires IsToken(t)
    requires rest == [] || IsWhitespace(rest[0])
    ensures Tokens(t + rest) == [t] + Tokens(rest)
  {
    var x := t + rest;
    assert forall k | 0 <= k < |t| :: NotWhitespace(x[k]);
    SpanEndSkips(x, 0, |t|, NotWhitespace);
    if rest != [] {
      assert x[|t|] == rest[0];
    }
    TokensLead(x);
    SplitAt(t, rest, x);
  }

  /** The first token of a text that begins with `t` is `t` and what follows it up to whitespace. */
  lemma TokenRunsOn(t: string, rest: string)
    requires IsToken(t)
    ensures var x := t + rest;
      var e := SpanEnd(x, 0, NotWhitespace);
      |t| <= e && Tokens(x) == [x[..e]] + Tokens(x[e..])
  {
    var x := t + rest;
    assert forall k | 0 <= k < |t| :: NotWhitespace(x[k]);
    SpanEndSkips(x, 0, |t|, NotWhitespace);
    TokensLead(x);
  }

  /** A first token stays the first token when whitespace, or nothing, is appended. */
  lemma FirstTokenStays(r: string, rest: string)
    requires r != [] && !IsWhitespace(r[0])
    requires rest == [] || IsWhitespace(rest[0])
    ensures var e := SpanEnd(r, 0, NotWhitespace);
      && 0 < e <= |r|
      && Tokens(r) == [r[..e]] + Tokens(r[e..])
      && Tokens(r + rest) == [r[..e]] + Tokens(r[e..] + rest)
  {
    var x := r + rest;
    var e := SpanEnd(r, 0, NotWhitespace);
    TokensLead(r);
    assert x[0] == r[0];
    TokensLead(x);
    SpanEndAll(r, 0, NotWhitespace);
    assert forall k | 0 <= k < e :: NotWhitespace(x[k]);
    SpanEndSkips(x, 0, e, NotWhitespace);
    if e < |r| {
      assert x[e] == r[e];
    } else if rest != [] {
      assert x[e] == rest[0];
    }
    SliceAppend(r, rest, e);
  }

  /** A text is its leading whitespace followed by text that starts with a token, or by nothing. */
  lemma LeadingWhitespace(m: string) returns (lead: string, r: string)
    ensures AllWhitespace(lead) && m == lead + r
    ensures r == [] || !IsWhitespace(r[0])
    ensures |r| <= |m|
  {
    var a := SpanEnd(m, 0, IsWhitespace);
    SpanEndAll(m, 0, IsWhitespace);
    lead, r := m[..a], m[a..];
    SplitAt(lead, r, m);
  }

  /** Text separated by whitespace tokenises separately: `split_whitespace` is a homomorphism. */
  lemma {:induction false} TokensAppend(m: string, rest: string)
    requires rest == [] || IsWhitespace(rest[0])
    ensures Tokens(m + rest) == Tokens(m) + Tokens(rest)
    decreases |m|, 1
  {
    var lead, r := LeadingWhitespace(m);
    TokensSkip(lead, r);
    AppendAssoc(lead, r, rest);
    TokensSkip(lead, r + rest);
    if r == [] {
      assert r + rest == rest;
    } else {
      TokensAppendLed(r, rest);
    }
  }

  /** `TokensAppend` for a text that starts with a token. */
  lemma {:induction false} TokensAppendLed(r: string, rest: string)
    requires r != [] && !IsWhitespace(r[0])
    requires rest == [] || IsWhitespace(rest[0])
    ensures Tokens(r + rest) == Tokens(r) + Tokens(rest)
    decreases |r|, 0
  {
    FirstTokenStays(r, rest);
    var e := SpanEnd(r, 0, NotWhitespace);
    TokensAppend(r[e..], rest);
    ConsRegroup(r[..e], Tokens(r[e..]), Tokens(rest), Tokens(r), Tokens(r + rest));
  }

  /** Word-list algebra: a word in front of two word lists. */
  lemma ConsRegroup(t: string, a: seq<string>, b: seq<string>, x: seq<string>, y: seq<string>)
    requires x == [t] + a && y == [t] + (a + b)
    ensures y == x + b
  {
  }

  /** A text of whitespace has no token. */
  lemma TokensOfWhitespace(w: string)
    requires AllWhitespace(w)
    ensures Tokens(w) == []
  {
    TokensSkip(w, []);
    assert w + [] == w;
  }

  /** Trailing whitespace contributes no token. */
  lemma TokensDropTrailing(m: string, w: string)
    requires AllWhitespace(w)
    ensures Tokens(m + w) == Tokens(m)
  {
    TokensAppend(m, w);
    TokensOfWhitespace(w);
  }

  /** Trimming a line does not change its tokens. */
  lemma TokensOfTrim(s: string)
    ensures Tokens(Trim(s)) == Tokens(s)
  {
    var front, back := TrimSplit(s);
    TokensDropTrailing(Trim(s), back);
    AppendAssoc(front, Trim(s), back);
    TokensSkip(front, Trim(s) + back);
  }

  /** A trimmed line is empty exactly when the line has no token, and otherwise starts its first token. */
  lemma TrimmedTokens(s: string)
    ensures (Trim(s) == [] <==> Tokens(s) == []) && (Trim(s) != [] ==> Tokens(s)[0][0] == Trim(s)[0])
  {
    TokensOfTrim(s);
    var t := Trim(s);
    if t != [] {
      TokensLead(t);
    }
  }

  /** Each token followed by one space. */
  function Spaced(ts: seq<string>): string {
    if ts == [] then "" else ts[0] + " " + Spaced(ts[1..])
  }

  /** Tokenising words written out with spaces gives the words back. */
  lemma {:induction false} TokensOfSpaced(ts: seq<string>)
    requires forall k | 0 <= k < |ts| :: IsToken(ts[k])
    ensures Tokens(Spaced(ts)) == ts
  {
    if ts != [] {
      var rest := Spaced(ts[1..]);
      AppendAssoc(ts[0], " ", rest);
      TokenThen(ts[0], " " + rest);
      TokensSkip(" ", rest);
      TokensOfSpaced(ts[1..]);
    }
  }

  /** `convert_line` panics when a line that is neither blank nor a comment lacks a name after its type. */
  predicate Convertible(line: string) {
    var ts := Tokens(line);
    ts == [] || ts[0][0] == '#' || |ts| >= 2
  }

  /** `s.split(c).next()`: the text before the first `c`. */
  function CutAt(s: string, c: char): (r: string)
    ensures c !in r && r <= s
    ensures c in s ==> |r| < |s| && s[|r|] == c
    ensures c !in s ==> r == s
  {
    match Find(s, c)
    case Some(k) => s[..k]
    case None => s
  }

  /** The field the type and name words of a line describe. */
  function FieldOf(typeWord: string, nameWord: string): Field {
    var isArray := EndsWith(typeWord, "[]");
    var base := if isArray then typeWord[..|typeWord| - 2] else typeWord;
    var name :=
      if '=' in nameWord then CutAt(nameWord, '=')
      else if '"' in nameWord then CutAt(nameWord, '"')
      else nameWord;
    Field(if base in Builtins then Builtins[base] else base, name, isArray)
  }

  /**
   * `convert_line`: None for a blank line or a comment; otherwise the field
   * its first two words describe, whatever follows them.
   */
  function ConvertLine(line: string): (r: Option<Field>)
    requires Convertible(line)
    ensures r.None? <==> Tokens(line) == [] || Tokens(line)[0][0] == '#'
  {
    var t := Trim(line);
    TrimmedTokens(line);
    TokensOfTrim(line);
    if t != [] && t[0] == '#' then None
    else if t == [] then None
    else
      var parts := Tokens(t);
      Some(FieldOf(parts[0], parts[1]))
  }

  /** What `convert_line` does, in terms of the words of the line. */
  lemma ConvertByTokens(line: string)
    requires Convertible(line)
    ensures var ts := Tokens(line);
      ConvertLine(line) == if ts == [] || ts[0][0] == '#' then None else Some(FieldOf(ts[0], ts[1]))
  {
    TrimmedTokens(line);
    TokensOfTrim(line);
  }

  /** Text after the name, set off by whitespace, does not change the field. */
  lemma TrailingTextIgnored(line: string, w: string, extra: string)
    requires |Tokens(line)| >= 2
    requires w != [] && AllWhitespace(w)
    ensures Convertible(line + w + extra)
    ensures ConvertLine(line + w + extra) == ConvertLine(line)
  {
    AppendAssoc(line, w, extra);
    TokensAppend(line, w + extra);
    TokensSkip(w, extra);
    ConvertByTokens(line);
    ConvertByTokens(line + w + extra);
  }

  /** A comment line, after any indentation, converts to nothing. */
  lemma CommentLine(w: string, text: string)
    requires AllWhitespace(w)
    ensures Convertible(w + "#" + text)
    ensures ConvertLine(w + "#" + text) == None
  {
    AppendAssoc(w, "#", text);
    TokensSkip(w, "#" + text);
    TokensLead("#" + text);
  }

  /** A blank line converts to nothing. */
  lemma BlankLine(w: string)
    requires AllWhitespace(w)
    ensures Convertible(w)
    ensures ConvertLine(w) == None
  {
    TokensOfWhitespace(w);
  }

  /** The part of a name word `convert_line` keeps: the text before a `=`, else before a `"`. */
  function NameOf(word: string): (r: string)
    ensures '=' in word ==> '=' !in r
    ensures '=' !in word && '"' in word ==> '"' !in r
    ensures r <= word
  {
    if '=' in word then CutAt(word, '=')
    else if '"' in word then CutAt(word, '"')
    else word
  }

  /** A field name as a message file writes it: a word with neither `=` nor `"` in it. */
  predicate PlainName(name: string) {
    IsToken(name) && '=' !in name && '"' !in name
  }

  /** What may follow a name: nothing, whitespace, a constant's `=`, or a quote with no `=` after it. */
  predicate NameEnd(tail: string) {
    tail == [] || IsWhitespace(tail[0]) || tail[0] == '=' || (tail[0] == '"' && '=' !in tail)
  }

  /** The name word of a line that writes a plain name gives that name back. */
  lemma NameWordOf(name: string, tail: string)
    requires PlainName(name) && NameEnd(tail)
    ensures var ts := Tokens(name + tail);
      ts != [] && NameOf(ts[0]) == name
  {
    var x := name + tail;
    if tail == [] || IsWhitespace(tail[0]) {
      TokenThen(name, tail);
    } else {
      TokenRunsOn(name, tail);
      var e := SpanEnd(x, 0, NotWhitespace);
      assert x[|name|] == tail[0];
      var word := x[..e];
      assert word == name + tail[..e - |name|];
      var c := tail[0];
      assert tail[..e - |name|][0] == c;
      FindAfter(name, tail[..e - |name|], c);
      if c == '"' {
        assert '=' !in word by {
          assert forall i | |name| <= i < |word| :: word[i] == tail[i - |name|];
        }
      }
      assert word[..|name|] == name;
    }
  }

  /** The type word `convert_line` reads: the type with `[]` when it is an array. */
  function TypeWord(rosType: string, isArray: bool): string {
    rosType + (if isArray then "[]" else "")
  }

  /** A type word is recognised as an array exactly when it carries `[]`, and reads back as its type. */
  lemma TypeWordOf(rosType: string, isArray: bool)
    requires IsToken(rosType) && !EndsWith(rosType, "[]")
    ensures var f := FieldOf(TypeWord(rosType, isArray), "x");
      f.isArray == isArray && f.dataType == if rosType in Builtins then Builtins[rosType] else rosType
    ensures IsToken(TypeWord(rosType, isArray)) && TypeWord(rosType, isArray)[0] == rosType[0]
  {
    var t := TypeWord(rosType, isArray);
    if isArray {
      assert t[|t| - 2..] == "[]";
      assert t[..|t| - 2] == rosType;
    } else {
      assert t == rosType;
    }
  }

  /** A field line: indentation, the type word, whitespace, the name, and what follows the name. */
  function FieldLine(w: string, rosType: string, isArray: bool, gap: string, name: string, tail: string): string {
    w + TypeWord(rosType, isArray) + gap + name + tail
  }

  /** The words of a field line: the type word, then the words from the name on. */
  lemma FieldLineTokens(w: string, rosType: string, isArray: bool, gap: string, name: string, tail: string)
    requires AllWhitespace(w) && gap != [] && AllWhitespace(gap)
    requires IsToken(TypeWord(rosType, isArray))
    ensures Tokens(FieldLine(w, rosType, isArray, gap, name, tail)) == [TypeWord(rosType, isArray)] + Tokens(name + tail)
  {
    var t := TypeWord(rosType, isArray);
    var nt := name + tail;
    Regroup(w, t, gap, name, tail);
    WordAfterWhitespace(w, t, gap, nt);
  }

  /** Concatenation of five texts, regrouped to the right. */
  lemma Regroup(a: string, b: string, c: string, d: string, e: string)
    ensures a + b + c + d + e == a + (b + (c + (d + e)))
  {
  }

  /** A word between whitespace is the first word, and the rest tokenises on its own. */
  lemma WordAfterWhitespace(w: string, t: string, gap: string, rest: string)
    requires AllWhitespace(w) && gap != [] && AllWhitespace(gap) && IsToken(t)
    ensures Tokens(w + (t + (gap + rest))) == [t] + Tokens(rest)
  {
    TokensSkip(w, t + (gap + rest));
    TokenThen(t, gap + rest);
    TokensSkip(gap, rest);
  }

  /**
   * A field line converts to the field it writes: the builtin mapping of its
   * type, its name, and whether `[]` marked it an array, whatever follows the
   * name once the name ends.
   */
  lemma ConvertFieldLine(w: string, rosType: string, isArray: bool, gap: string, name: string, tail: string)
    requires AllWhitespace(w) && gap != [] && AllWhitespace(gap)
    requires IsToken(rosType) && rosType[0] != '#' && !EndsWith(rosType, "[]")
    requires PlainName(name) && NameEnd(tail)
    ensures Convertible(FieldLine(w, rosType, isArray, gap, name, tail))
    ensures ConvertLine(FieldLine(w, rosType, isArray, gap, name, tail))
      == Some(Field(if rosType in Builtins then Builtins[rosType] else rosType, name, isArray))
  {
    var line := FieldLine(w, rosType, isArray, gap, name, tail);
    var ts := Tokens(line);
    TypeWordOf(rosType, isArray);
    FieldLineTokens(w, rosType, isArray, gap, name, tail);
    NameWordOf(name, tail);
    assert ts[0] == TypeWord(rosType, isArray) && ts[1] == Tokens(name + tail)[0];
    ConvertByTokens(line);
  }

  /** The facts `ConvertFieldLine` needs of a type word and a name. */
  predicate Writable(rosType: string, name: string) {
    IsToken(rosType) && rosType[0] != '#' && !EndsWith(rosType, "[]") && PlainName(name)
  }

  lemma DataOffsetWords()
    ensures Writable("uint32", "data_offset") && "uint32" in Builtins && Builtins["uint32"] == "u32"
  {
  }

  lemma DataOffsetLine(c: string)
    ensures "uint32 data_offset        " + c == FieldLine("", "uint32", false, " ", "data_offset", "        " + c)
  {
  }

  /** A plain field, whatever comment follows the name. */
  lemma DataOffsetExample(c: string)
    ensures Convertible("uint32 data_offset        " + c)
    ensures ConvertLine("uint32 data_offset        " + c) == Some(Field("u32", "data_offset", false))
  {
    DataOffsetWords();
    DataOffsetLine(c);
    ConvertFieldLine("", "uint32", false, " ", "data_offset", "        " + c);
  }

  lemma StampWords()
    ensures Writable("time", "stamp") && "time" in Builtins && Builtins["time"] == "frost::time::Time"
  {
  }

  lemma StampLine()
    ensures "time stamp" == FieldLine("", "time", false, " ", "stamp", "")
  {
  }

  /** `time` maps to frost's own time type. */
  lemma StampExample()
    ensures Convertible("time stamp")
    ensures ConvertLine("time stamp") == Some(Field("frost::time::Time", "stamp", false))
  {
    StampWords();
    StampLine();
    ConvertFieldLine("", "time", false, " ", "stamp", "");
  }

  lemma DurWords()
    ensures Writable("duration", "dur") && "duration" in Builtins && Builtins["duration"] == "frost::time::RosDuration"
  {
  }

  lemma DurLine()
    ensures "duration dur" == FieldLine("", "duration", false, " ", "dur", "")
  {
  }

  /** `duration` maps to frost's own duration type. */
  lemma DurExample()
    ensures Convertible("duration dur")
    ensures ConvertLine("duration dur") == Some(Field("frost::time::RosDuration", "dur", false))
  {
    DurWords();
    DurLine();
    ConvertFieldLine("", "duration", false, " ", "dur", "");
  }

  lemma ConstDataOffsetWords()
    ensures Writable("uint32", "data_offset") && "uint32" in Builtins && Builtins["uint32"] == "u32"
  {
  }

  lemma ConstDataOffsetLine(c: string)
    ensures "uint32 data_offset=" + c == FieldLine("", "uint32", false, " ", "data_offset", "=" + c)
  {
  }

  /** A constant line becomes a field named by the text before `=`, whatever value and comment follow. */
  lemma ConstDataOffsetExample(c: string)
    ensures Convertible("uint32 data_offset=" + c)
    ensures ConvertLine("uint32 data_offset=" + c) == Some(Field("u32", "data_offset", false))
  {
    ConstDataOffsetWords();
    ConstDataOffsetLine(c);
    ConvertFieldLine("", "uint32", false, " ", "data_offset", "=" + c);
  }

  lemma NpiWords()
    ensures Writable("float32", "npi") && "float32" in Builtins && Builtins["float32"] == "f32"
  {
  }

  lemma NpiLine(c: string)
    ensures "float32 npi=" + c == FieldLine("", "float32", false, " ", "npi", "=" + c)
  {
  }

  /** A float constant, whatever value and comment follow the `=` (`-3.14# some comment`). */
  lemma NpiExample(c: string)
    ensures Convertible("float32 npi=" + c)
    ensures ConvertLine("float32 npi=" + c) == Some(Field("f32", "npi", false))
  {
    NpiWords();
    NpiLine(c);
    ConvertFieldLine("", "float32", false, " ", "npi", "=" + c);
  }

  lemma FooWords()
    ensures Writable("string", "FOO") && "string" in Builtins && Builtins["string"] == "std::string::String"
  {
  }

  lemma FooLine(c: string)
    ensures "string FOO=" + c == FieldLine("", "string", false, " ", "FOO", "=" + c)
  {
  }

  /** A string constant, whatever follows the `=` (`foo`, or a quoted text and more words). */
  lemma FooExample(c: string)
    ensures Convertible("string FOO=" + c)
    ensures ConvertLine("string FOO=" + c) == Some(Field("std::string::String", "FOO", false))
  {
    FooWords();
    FooLine(c);
    ConvertFieldLine("", "string", false, " ", "FOO", "=" + c);
  }

  lemma ArrayDataWords()
    ensures Writable("uint32", "data") && "uint32" in Builtins && Builtins["uint32"] == "u32"
  {
  }

  lemma ArrayDataLine(c: string)
    ensures "uint32[] data " + c == FieldLine("", "uint32", true, " ", "data", " " + c)
  {
  }

  /** `[]` is stripped from the type and marks a `Vec`. */
  lemma ArrayDataExample(c: string)
    ensures Convertible("uint32[] data " + c)
    ensures ConvertLine("uint32[] data " + c) == Some(Field("u32", "data", true))
  {
    ArrayDataWords();
    ArrayDataLine(c);
    ConvertFieldLine("", "uint32", true, " ", "data", " " + c);
  }

  lemma WideArrayDataWords()
    ensures Writable("int64", "data") && "int64" in Builtins && Builtins["int64"] == "i64"
  {
  }

  lemma WideArrayDataLine(c: string)
    ensures "int64[]           data          " + c == FieldLine("", "int64", true, "           ", "data", "          " + c)
  {
  }

  /** An array field with wide spacing. */
  lemma WideArrayDataExample(c: string)
    ensures Convertible("int64[]           data          " + c)
    ensures ConvertLine("int64[]           data          " + c) == Some(Field("i64", "data", true))
  {
    WideArrayDataWords();
    WideArrayDataLine(c);
    ConvertFieldLine("", "int64", true, "           ", "data", "          " + c);
  }

  /** The blank and comment lines of `test_convert_line` convert to nothing. */
  lemma SkippedLineExamples()
    ensures Convertible("# this is a comment") && ConvertLine("# this is a comment") == None
    ensures Convertible(" ") && ConvertLine(" ") == None
  {
    assert "# this is a comment" == "" + "#" + " this is a comment";
    CommentLine("", " this is a comment");
    BlankLine(" ");
  }

  /** Every line of a file is one `convert_line` handles. */
  predicate AllConvertible(lines: seq<string>) {
    forall i | 0 <= i < |lines| :: Convertible(lines[i])
  }

  lemma AllConvertibleAppend(a: seq<string>, b: seq<string>)
    requires AllConvertible(a) && AllConvertible(b)
    ensures AllConvertible(a + b) && (a != [] ==> AllConvertible(a[1..]))
  {
    assert forall i | 0 <= i < |a + b| :: (a + b)[i] == if i < |a| then a[i] else b[i - |a|];
    if a != [] {
      assert forall i | 0 <= i < |a| - 1 :: a[1..][i] == a[i + 1];
    }
  }

  /**
   * `RosMsg::new` after reading the file: the fields of the lines that are
   * neither blank nor comments, in order.
   */
  function MsgFields(lines: seq<string>): (r: seq<Field>)
    requires AllConvertible(lines)
    ensures |r| <= |lines|
  {
    Present(Converted(lines))
  }

  /** `convert_line` on every line. */
  function Converted(lines: seq<string>): (r: seq<Option<Field>>)
    requires AllConvertible(lines)
    ensures |r| == |lines|
    ensures forall i | 0 <= i < |lines| :: r[i] == ConvertLine(lines[i])
  {
    seq(|lines|, i requires 0 <= i < |lines| => ConvertLine(lines[i]))
  }

  /** `filter_map`'s keeping of the present values, in order. */
  function Present<T>(os: seq<Option<T>>): (r: seq<T>)
    ensures |r| <= |os|
  {
    if os == [] then [] else (match os[0] case Some(v) => [v] case None => []) + Present(os[1..])
  }

  /** Keeping the present values distributes over concatenation. */
  lemma {:induction false} PresentAppend<T>(a: seq<Option<T>>, b: seq<Option<T>>)
    ensures Present(a + b) == Present(a) + Present(b)
  {
    if a != [] {
      assert (a + b)[0] == a[0] && (a + b)[1..] == a[1..] + b;
      PresentAppend(a[1..], b);
    } else {
      assert a + b == b;
    }
  }

  /** The fields of a file are the fields of its first lines, then those of the rest. */
  lemma MsgFieldsAppend(a: seq<string>, b: seq<string>)
    requires AllConvertible(a) && AllConvertible(b)
    ensures AllConvertible(a + b)
    ensures MsgFields(a + b) == MsgFields(a) + MsgFields(b)
  {
    AllConvertibleAppend(a, b);
    assert Converted(a + b) == Converted(a) + Converted(b);
    PresentAppend(Converted(a), Converted(b));
  }

  /** A field's Rust type: `Vec<T>` for an array, `T` otherwise. */
  function RustType(f: Field): string {
    if f.isArray then "Vec<" + f.dataType + ">" else f.dataType
  }

  /** One struct member as `as_struct_definition` writes it: `pub name: T,`. */
  function MemberText(f: Field): string {
    "pub " + f.name + ": " + RustType(f) + ","
  }

  /** The members of the fields, in order. */
  function Members(fs: seq<Field>): string {
    if fs == [] then "" else MemberText(fs[0]) + Members(fs[1..])
  }

  /** `RosMsg::as_struct_definition`: a struct with one public member per field, in order. */
  function AsStructDefinition(name: string, fs: seq<Field>): string {
    "pub struct " + name + " {" + Members(fs) + "}"
  }

  /** A Rust type of the form `Vec<T>`. */
  predicate IsVecType(t: string) {
    |t| >= 5 && StartsWith(t, "Vec<") && EndsWith(t, ">")
  }

  /** The field a member's name and Rust type describe: `Vec<T>` is an array of `T`. */
  function FieldOfRust(name: string, t: string): Field {
    if IsVecType(t) then Field(t[4..|t| - 1], name, true) else Field(t, name, false)
  }

  /** Reads one member, `pub name: T,`, from the front of `s`; the text after its comma. */
  function ReadMember(s: string): (r: Option<(Field, string)>)
    ensures r.Some? ==> |r.value.1| < |s|
  {
    if StartsWith(s, "pub ") then ReadMemberName(s[4..]) else None
  }

  /** A member's name runs up to the first colon. */
  function ReadMemberName(u: string): (r: Option<(Field, string)>)
    ensures r.Some? ==> |r.value.1| < |u|
  {
    match Find(u, ':')
    case None => None
    case Some(k) => ReadMemberType(u[..k], u[k..])
  }

  /** After the name, a colon, a space, and the Rust type up to the first comma. */
  function ReadMemberType(name: string, u: string): (r: Option<(Field, string)>)
    ensures r.Some? ==> |r.value.1| < |u|
  {
    if StartsWith(u, ": ") then
      match Find(u[2..], ',')
      case None => None
      case Some(m) => Some((FieldOfRust(name, u[2..][..m]), u[2..][m + 1..]))
    else None
  }

  /** Reads members one after another up to the `}` that closes the struct; the text after it. */
  function ReadMembers(s: string): (r: Option<(seq<Field>, string)>)
    ensures r.Some? ==> |r.value.1| < |s|
    decreases |s|
  {
    if s == [] then None
    else if s[0] == '}' then Some(([], s[1..]))
    else match ReadMember(s)
      case None => None
      case Some((f, rest)) =>
        match ReadMembers(rest)
        case None => None
        case Some((fs, after)) => Some(([f] + fs, after))
  }

  /** Reads a whole struct definition back: its name up to the first space, and its members. */
  function ReadDefinition(s: string): Option<(string, seq<Field>)> {
    if !StartsWith(s, "pub struct ") then None
    else
      var u := s[11..];
      match Find(u, ' ')
      case None => None
      case Some(k) =>
        if !StartsWith(u[k..], " {") then None
        else match ReadMembers(u[k..][2..])
          case None => None
          case Some((fs, after)) => if after == [] then Some((u[..k], fs)) else None
  }

  /**
   * A field whose member text reads back unambiguously: no colon in its name,
   * no comma in its type, and a non-array type that does not itself look like
   * `Vec<T>`. `convert_line` guarantees none of these, as its words may hold
   * any character but whitespace.
   */
  predicate Readable(f: Field) {
    ':' !in f.name && ',' !in f.dataType && (f.isArray || !IsVecType(f.dataType))
  }

  predicate AllReadable(fs: seq<Field>) {
    forall i | 0 <= i < |fs| :: Readable(fs[i])
  }

  /** The Rust type of a readable field has no comma and reads back as the field. */
  lemma RustTypeOf(f: Field)
    requires Readable(f)
    ensures ',' !in RustType(f) && FieldOfRust(f.name, RustType(f)) == f
  {
    var t := RustType(f);
    if f.isArray {
      assert t[..4] == "Vec<" && t[|t| - 1..] == ">";
      assert t[4..|t| - 1] == f.dataType;
      assert ',' !in "Vec<" && ',' !in ">";
    }
  }

  /** The type and comma after a member's name. */
  lemma ReadMemberTypeOf(name: string, ty: string, rest: string)
    requires ',' !in ty
    ensures ReadMemberType(name, ": " + (ty + ("," + rest))) == Some((FieldOfRust(name, ty), rest))
  {
    var u := ": " + (ty + ("," + rest));
    SplitAt(": ", ty + ("," + rest), u);
    FindAfter(ty, "," + rest, ',');
    SplitAt(ty, "," + rest, u[2..]);
    assert u[2..][|ty| + 1..] == rest;
  }

  /** A member's name, and what follows it. */
  lemma ReadMemberNameOf(name: string, ty: string, rest: string)
    requires ':' !in name && ',' !in ty
    ensures ReadMemberName(name + (": " + (ty + ("," + rest)))) == Some((FieldOfRust(name, ty), rest))
  {
    var tail := ": " + (ty + ("," + rest));
    FindAfter(name, tail, ':');
    SplitAt(name, tail, name + tail);
    ReadMemberTypeOf(name, ty, rest);
  }

  /** A readable field's member reads back as the field, whatever follows it. */
  lemma ReadMemberOf(f: Field, rest: string)
    requires Readable(f)
    ensures ReadMember(MemberText(f) + rest) == Some((f, rest))
  {
    var ty := RustType(f);
    RustTypeOf(f);
    var body := f.name + (": " + (ty + ("," + rest)));
    var s := MemberText(f) + rest;
    assert s == "pub " + body;
    SplitAt("pub ", body, s);
    ReadMemberNameOf(f.name, ty, rest);
  }

  /** A member in front of members that read back adds its field in front. */
  lemma ReadMembersStep(f: Field, rest: string, fs: seq<Field>, after: string)
    requires Readable(f)
    requires ReadMembers(rest) == Some((fs, after))
    ensures ReadMembers(MemberText(f) + rest) == Some(([f] + fs, after))
  {
    ReadMemberOf(f, rest);
    var s := MemberText(f) + rest;
    assert s[0] == 'p';
  }

  /** The members of readable fields read back as those fields, in order, up to the closing brace. */
  lemma {:induction false} MembersRoundTrip(fs: seq<Field>, after: string)
    requires AllReadable(fs)
    ensures ReadMembers(Members(fs) + ("}" + after)) == Some((fs, after))
  {
    if fs != [] {
      var tail := fs[1..];
      assert AllReadable(tail) && Readable(fs[0]) by {
        assert forall i | 0 <= i < |tail| :: tail[i] == fs[i + 1];
      }
      MembersRoundTrip(tail, after);
      MembersCons(fs[0], tail, after);
      assert [fs[0]] + tail == fs;
    } else {
      var s := Members(fs) + ("}" + after);
      assert s == "}" + after;
      assert s[1..] == after;
    }
  }

  /** One more readable member in front of members that read back reads back as well. */
  lemma MembersCons(f: Field, tail: seq<Field>, after: string)
    requires Readable(f)
    requires ReadMembers(Members(tail) + ("}" + after)) == Some((tail, after))
    ensures ReadMembers(Members([f] + tail) + ("}" + after)) == Some(([f] + tail, after))
  {
    var fs := [f] + tail;
    assert fs[0] == f && fs[1..] == tail;
    ReadMembersStep(f, Members(tail) + ("}" + after), tail, after);
    AppendAssoc(MemberText(f), Members(tail), "}" + after);
  }

  /** The pieces of a struct definition, regrouped for reading. */
  lemma DefinitionPieces(name: string, members: string)
    ensures "pub struct " + name + " {" + members + "}" == "pub struct " + (name + (" {" + (members + ("}" + ""))))
  {
  }

  /** A definition with a space-free name reads back as that name and what its members read as. */
  lemma ReadDefinitionOf(name: string, members: string, fs: seq<Field>)
    requires ' ' !in name
    requires ReadMembers(members + ("}" + "")) == Some((fs, ""))
    ensures ReadDefinition("pub struct " + (name + (" {" + (members + ("}" + ""))))) == Some((name, fs))
  {
    var rest := " {" + (members + ("}" + ""));
    var u := name + rest;
    var s := "pub struct " + u;
    SplitAt("pub struct ", u, s);
    FindAfter(name, rest, ' ');
    SplitAt(name, rest, u);
    SplitAt(" {", members + ("}" + ""), rest);
  }

  /**
   * The definition `as_struct_definition` writes reads back as the struct
   * name and the fields, in order, when the name has no space and every
   * field is readable.
   */
  lemma DefinitionRoundTrip(name: string, fs: seq<Field>)
    requires ' ' !in name
    requires AllReadable(fs)
    ensures ReadDefinition(AsStructDefinition(name, fs)) == Some((name, fs))
  {
    MembersRoundTrip(fs, "");
    DefinitionPieces(name, Members(fs));
    ReadDefinitionOf(name, Members(fs), fs);
  }
}
