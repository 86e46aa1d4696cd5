/**
 * The Rust source frost-codegen emits for one parsed message definition
 * (`RosMsg::as_struct_definition` in frost-codegen/src/lib.rs): a struct with
 * one public field per field statement, then an `impl` block with one
 * associated constant per constant statement.
 */
module RustEmit {
  import opened Wrappers
  import opened Text
  import opened MsgGrammar

  /** `builtin_mappings`: the ROS primitive types and the Rust types they become. */
  const Builtins: map<string, string> := map[
    "bool" := "bool", "byte" := "u8", "char" := "char", "float32" := "f32", "float64" := "f64",
    "int8" := "i8", "int16" := "i16", "int32" := "i32", "int64" := "i64",
    "uint8" := "u8", "uint16" := "u16", "uint32" := "u32", "uint64" := "u64",
    "string" := "std::string::String",
    "Header" := "crate::msgs::std_msgs::Header",
    "time" := "frost::time::Time",
    "duration" := "frost::time::RosDuration"]

  /** The Rust path of a field's element type: a package-qualified type lives under `crate::msgs`. */
  function FieldTypeName(t: MsgType): string {
    match t.packageName
    case Some(p) => "crate::msgs::" + p + "::" + t.name
    case None => if t.name in Builtins then Builtins[t.name] else t.name
  }

  /** The Rust path of a constant's type: a package-qualified type is written without `crate::msgs::`. */
  function ConstTypeName(t: MsgType): string {
    match t.packageName
    case Some(p) => p + "::" + t.name
    case None => if t.name in Builtins then Builtins[t.name] else t.name
  }

  /**
   * The two type paths agree except that a field's package-qualified type
   * carries the `crate::msgs::` prefix its constant counterpart lacks.
   */
  lemma FieldAndConstantPaths(t: MsgType)
    ensures t.packageName.Some? ==> FieldTypeName(t) == "crate::msgs::" + ConstTypeName(t)
    ensures t.packageName.None? ==> FieldTypeName(t) == ConstTypeName(t)
  {
    if t.packageName.Some? {
      var p := t.packageName.value;
      assert "crate::msgs::" + p + "::" + t.name == "crate::msgs::" + (p + "::" + t.name);
    }
  }

  /** A field's Rust type: a fixed-size array `[T; n]`, a `Vec<T>`, or `T` itself. */
  function FieldType(t: MsgType): string {
    if t.isArray then
      match t.arraySize
      case Some(n) => "[" + FieldTypeName(t) + "; " + Decimal(n) + "]"
      case None => "Vec<" + FieldTypeName(t) + ">"
    else FieldTypeName(t)
  }

  /** The attribute that lets serde handle arrays longer than 32 elements. */
  const BigArrayAttr: string := "#[serde(with = \"serde_big_array::BigArray\")]"

  predicate NeedsBigArray(t: MsgType) {
    t.arraySize.Some? && t.arraySize.value > 32
  }

  /** One struct field, `pub r#name: T,`, preceded by the big-array attribute when the size exceeds 32. */
  function FieldDecl(t: MsgType, name: string): string {
    (if NeedsBigArray(t) then BigArrayAttr else "") + "pub r#" + name + ": " + FieldType(t) + ","
  }

  /** The struct fields of the field statements, in order; constants add none. */
  function StructFields(stmts: seq<Statement>): string {
    if stmts == [] then ""
    else
      (match stmts[0] case Field(t, name) => FieldDecl(t, name) case Constant(_, _, _) => "")
      + StructFields(stmts[1..])
  }

  /** A struct field declaration as read back: the big-array attribute's presence, the name, the Rust type. */
  datatype Decl = Decl(bigArray: bool, name: string, rustType: string)

  /**
   * Reads one field declaration, an optional big-array attribute and then
   * `pub r#name: T,`, from the front of `s`; the text after its comma.
   */
  function ReadDecl(s: string): (r: Option<(Decl, string)>)
    ensures r.Some? ==> |r.value.1| < |s|
  {
    var big := StartsWith(s, BigArrayAttr);
    var u := if big then s[|BigArrayAttr|..] else s;
    if StartsWith(u, "pub r#") then ReadDeclName(u[6..], big) else None
  }

  /** The name of a field declaration runs up to the first colon. */
  function ReadDeclName(u: string, big: bool): (r: Option<(Decl, string)>)
    ensures r.Some? ==> |r.value.1| < |u|
  {
    match Find(u, ':')
    case None => None
    case Some(k) => ReadDeclType(u[..k], u[k..], big)
  }

  /** After the name, a colon, a space, and the type up to the first comma. */
  function ReadDeclType(name: string, u: string, big: bool): (r: Option<(Decl, string)>)
    ensures r.Some? ==> |r.value.1| < |u|
  {
    if StartsWith(u, ": ") then
      match Find(u[2..], ',')
      case None => None
      case Some(m) => Some((Decl(big, name, u[2..][..m]), u[2..][m + 1..]))
    else None
  }

  /** Reads field declarations one after another up to the `}` that closes the struct; the text after it. */
  function ReadFields(s: string): (r: Option<(seq<Decl>, string)>)
    ensures r.Some? ==> |r.value.1| < |s|
    decreases |s|
  {
    if s == [] then None
    else if s[0] == '}' then Some(([], s[1..]))
    else match ReadDecl(s)
      case None => None
      case Some((d, rest)) =>
        match ReadFields(rest)
        case None => None
        case Some((ds, after)) => Some(([d] + ds, after))
  }

  /** What the struct should declare: one entry per field statement, in order. */
  function DeclsOf(stmts: seq<Statement>): seq<Decl> {
    if stmts == [] then []
    else
      (match stmts[0] case Field(t, name) => [Decl(NeedsBigArray(t), name, FieldType(t))] case Constant(_, _, _) => [])
      + DeclsOf(stmts[1..])
  }

  /** Names made of identifiers, as the message grammar produces them. */
  predicate IdentNames(st: Statement) {
    && IsIdent(st.name)
    && IsIdent(st.msgType.name)
    && (st.msgType.packageName.Some? ==> IsIdent(st.msgType.packageName.value))
  }

  /** An identifier holds no character outside the identifier characters. */
  lemma IdentLacks(s: string, c: char)
    requires IsIdent(s) && !IsIdentChar(c)
    ensures c !in s
  {
    assert forall i | 0 <= i < |s| :: s[i] != c;
  }

  /** The Rust types the builtin mappings produce: primitive names, and library paths. */
  const PrimitiveTypes: set<string> := {"bool", "u8", "char", "f32", "f64", "i8", "i16", "i32", "i64", "u16", "u32", "u64"}
  const StdPaths: set<string> := {"std::string::String", "crate::msgs::std_msgs::Header"}
  const TimePaths: set<string> := {"frost::time::Time", "frost::time::RosDuration"}

  lemma IdentLacksSpace(s: string)
    requires IsIdent(s)
    ensures ' ' !in s
  {
    IdentLacks(s, ' ');
  }

  lemma BuiltinsKinds()
    ensures forall k | k in Builtins :: Builtins[k] in PrimitiveTypes || Builtins[k] in StdPaths || Builtins[k] in TimePaths
  {
  }

  lemma PathsLack(c: char)
    requires !IsIdentChar(c) && c != ':'
    ensures forall v | v in PrimitiveTypes :: c !in v
    ensures forall v | v in StdPaths :: c !in v
  {
  }

  lemma TimePathsLack(c: char)
    requires !IsIdentChar(c) && c != ':'
    ensures forall v | v in TimePaths :: c !in v
  {
  }

  /** The builtin Rust paths are made of identifier characters and colons. */
  lemma BuiltinsLack(c: char)
    requires !IsIdentChar(c) && c != ':'
    ensures forall k | k in Builtins :: c !in Builtins[k]
  {
    BuiltinsKinds();
    PathsLack(c);
    TimePathsLack(c);
  }

  /** No Rust type of a field with identifier names holds a comma. */
  lemma FieldTypeLacksComma(t: MsgType)
    requires IsIdent(t.name) && (t.packageName.Some? ==> IsIdent(t.packageName.value))
    ensures ',' !in FieldType(t)
  {
    IdentLacks(t.name, ',');
    BuiltinsLack(',');
    if t.packageName.Some? {
      IdentLacks(t.packageName.value, ',');
    }
    if t.arraySize.Some? {
      DigitsLack(Decimal(t.arraySize.value), ',');
    }
  }

  /** The type and comma after a declaration's name. */
  lemma ReadDeclTypeOf(name: string, ty: string, rest: string, big: bool)
    requires ',' !in ty
    ensures ReadDeclType(name, ": " + (ty + ("," + rest)), big) == Some((Decl(big, name, ty), rest))
  {
    var u := ": " + (ty + ("," + rest));
    assert u[..2] == ": ";
    assert u[2..] == ty + ("," + rest);
    FindAfter(ty, "," + rest, ',');
    assert u[2..][..|ty|] == ty;
    assert u[2..][|ty| + 1..] == rest;
  }

  /** A declaration's name, and what follows it. */
  lemma ReadDeclNameOf(name: string, ty: string, rest: string, big: bool)
    requires ':' !in name && ',' !in ty
    ensures ReadDeclName(name + (": " + (ty + ("," + rest))), big) == Some((Decl(big, name, ty), rest))
  {
    var tail := ": " + (ty + ("," + rest));
    var u := name + tail;
    FindAfter(name, tail, ':');
    assert u[..|name|] == name;
    assert u[|name|..] == tail;
    ReadDeclTypeOf(name, ty, rest, big);
  }

  /** A field declaration reads back as its attribute flag, name and type, whatever follows it. */
  lemma ReadDeclOf(t: MsgType, name: string, rest: string)
    requires ':' !in name && ',' !in FieldType(t)
    ensures ReadDecl(FieldDecl(t, name) + rest) == Some((Decl(NeedsBigArray(t), name, FieldType(t)), rest))
  {
    var pre := if NeedsBigArray(t) then BigArrayAttr else "";
    var ty := FieldType(t);
    var body := name + (": " + (ty + ("," + rest)));
    var s := FieldDecl(t, name) + rest;
    assert s == pre + ("pub r#" + body);
    assert StartsWith(s, BigArrayAttr) == NeedsBigArray(t) by {
      if !NeedsBigArray(t) {
        assert s[0] == 'p' && BigArrayAttr[0] == '#';
      }
    }
    var u := if NeedsBigArray(t) then s[|BigArrayAttr|..] else s;
    assert u == "pub r#" + body;
    assert u[..6] == "pub r#" && u[6..] == body;
    ReadDeclNameOf(name, ty, rest, NeedsBigArray(t));
  }

  /** A field declaration in front of declarations that read back adds its own entry in front. */
  lemma ReadFieldsStep(t: MsgType, name: string, rest: string, ds: seq<Decl>, after: string)
    requires ':' !in name && ',' !in FieldType(t)
    requires ReadFields(rest) == Some((ds, after))
    ensures ReadFields(FieldDecl(t, name) + rest) == Some(([Decl(NeedsBigArray(t), name, FieldType(t))] + ds, after))
  {
    ReadDeclOf(t, name, rest);
    var s := FieldDecl(t, name) + rest;
    assert s[0] == FieldDecl(t, name)[0];
    assert s[0] != '}' by {
      if NeedsBigArray(t) {
        assert s[0] == BigArrayAttr[0];
      } else {
        assert s[0] == 'p';
      }
    }
  }

  /**
   * The struct body reads back as the field statements' names and Rust
   * types, in order, each with the big-array attribute exactly when its
   * size exceeds 32; constant statements leave no trace in it, and the
   * closing brace is found whatever follows it.
   */
  lemma {:induction false} StructFieldsRoundTrip(stmts: seq<Statement>, after: string)
    requires forall i | 0 <= i < |stmts| :: IdentNames(stmts[i])
    ensures ReadFields(StructFields(stmts) + ("}" + after)) == Some((DeclsOf(stmts), after))
  {
    if stmts != [] {
      var tail := stmts[1..];
      assert forall i | 0 <= i < |tail| :: IdentNames(tail[i]) by {
        assert forall i | 0 <= i < |tail| :: tail[i] == stmts[i + 1];
      }
      StructFieldsRoundTrip(tail, after);
      assert IdentNames(stmts[0]);
      match stmts[0]
      case Field(t, name) =>
        IdentLacks(name, ':');
        FieldTypeLacksComma(t);
        var rest := StructFields(tail) + ("}" + after);
        ReadFieldsStep(t, name, rest, DeclsOf(tail), after);
        assert StructFields(stmts) == FieldDecl(t, name) + StructFields(tail);
        AppendAssoc(FieldDecl(t, name), StructFields(tail), "}" + after);
        assert DeclsOf(stmts) == [Decl(NeedsBigArray(t), name, FieldType(t))] + DeclsOf(tail);
      case Constant(_, _, _) =>
        assert StructFields(stmts) == StructFields(tail);
        assert DeclsOf(stmts) == DeclsOf(tail);
    } else {
      var s := StructFields(stmts) + ("}" + after);
      assert s == "}" + after;
      assert s[1..] == after;
    }
  }

  /** `value.replace("\"", "\\\"")` as lib.rs writes it: only quotes are escaped. */
  function EscapeQuotes(v: string): string {
    if v == [] then []
    else (if v[0] == '"' then "\\\"" else [v[0]]) + EscapeQuotes(v[1..])
  }

  /** Quotes and backslashes escaped, so that the text reads back as `v` inside a Rust string literal. */
  function EscapeRust(v: string): string {
    if v == [] then []
    else (if v[0] == '"' || v[0] == '\\' then ['\\', v[0]] else [v[0]]) + EscapeRust(v[1..])
  }

  /** The character a Rust escape `\c` stands for, for the simple escapes. */
  function EscapedChar(c: char): Option<char> {
    match c
    case '"' => Some('"')
    case '\\' => Some('\\')
    case '\'' => Some('\'')
    case 'n' => Some('\n')
    case 'r' => Some('\r')
    case 't' => Some('\t')
    case '0' => Some('\0')
    case _ => None
  }

  /**
   * The string a Rust string literal's body denotes, or None when the body is
   * not one: an unescaped quote would close the literal early, and a trailing
   * or unknown escape does not compile.
   */
  function Unescape(body: string): Option<string> {
    if body == [] then Some([])
    else if body[0] == '"' then None
    else if body[0] == '\\' then
      if |body| < 2 then None
      else match (EscapedChar(body[1]), Unescape(body[2..]))
        case (Some(c), Some(rest)) => Some([c] + rest)
        case _ => None
    else match Unescape(body[1..])
      case Some(rest) => Some([body[0]] + rest)
      case None => None
  }

  /** The string a `&"…"` expression denotes, or None when the text is not one. */
  function ReadStrRef(s: string): Option<string> {
    if |s| >= 3 && s[..2] == "&\"" && s[|s| - 1] == '"' then Unescape(s[2..|s| - 1]) else None
  }

  /** Escaping quotes and backslashes reads back as the original string. */
  lemma {:induction false} EscapeRustRoundTrip(v: string)
    ensures Unescape(EscapeRust(v)) == Some(v)
  {
    if v != [] {
      EscapeRustRoundTrip(v[1..]);
      var e := EscapeRust(v);
      if v[0] == '"' || v[0] == '\\' {
        assert e[0] == '\\' && e[1] == v[0];
        assert e[2..] == EscapeRust(v[1..]);
      } else {
        assert e[0] == v[0];
        assert e[1..] == EscapeRust(v[1..]);
      }
      assert [v[0]] + v[1..] == v;
    }
  }

  /** Escaping only quotes reads back as the original string when it holds no backslash. */
  lemma {:induction false} EscapeQuotesRoundTrip(v: string)
    requires '\\' !in v
    ensures Unescape(EscapeQuotes(v)) == Some(v)
  {
    if v != [] {
      assert '\\' !in v[1..];
      EscapeQuotesRoundTrip(v[1..]);
      var e := EscapeQuotes(v);
      if v[0] == '"' {
        assert e[0] == '\\' && e[1] == '"';
        assert e[2..] == EscapeQuotes(v[1..]);
      } else {
        assert e[0] == v[0];
        assert e[1..] == EscapeQuotes(v[1..]);
      }
      assert [v[0]] + v[1..] == v;
    }
  }

  /** A value ending in a backslash, escaped only for quotes, does not make a string literal. */
  lemma TrailingBackslashBreaksLiteral()
    ensures EscapeQuotes("C:\\") == "C:\\"
    ensures Unescape(EscapeQuotes("C:\\")) == None
  {
    assert EscapeQuotes("\\") == "\\";
    assert EscapeQuotes(":\\") == ":\\";
    assert Unescape("\\") == None;
    assert Unescape(":\\") == None;
  }

  /** A value holding `\n` as two characters, escaped only for quotes, reads back with a line break. */
  lemma BackslashEscapeMisread()
    ensures Unescape(EscapeQuotes("\\n")) == Some("\n")
  {
    assert EscapeQuotes("n") == "n";
    assert EscapeQuotes("\\n") == "\\n";
    assert "\\n"[2..] == [];
    assert EscapedChar('n') == Some('\n');
    assert Unescape("\\n") == Some(['\n'] + []);
    assert ['\n'] + [] == "\n";
  }

  /** A constant's Rust type: `&'static str` for strings, otherwise its type path. */
  function ConstType(t: MsgType): string {
    if Lower(t.name) == "string" then "&'static str" else ConstTypeName(t)
  }

  predicate IsFloatName(kind: string) {
    kind == "float32" || kind == "float64"
  }

  /**
   * A constant's value as a Rust expression, by the type name's lower case,
   * as lib.rs writes it: a string becomes a `&"…"` literal with only its
   * quotes escaped, which denotes the value when the value holds no
   * backslash; a bool is `true` exactly for `1`; a float always carries a
   * decimal point; any other value is copied.
   */
  function ConstValue(t: MsgType, v: string): (r: string)
    ensures Lower(t.name) == "string" ==> r == "&\"" + EscapeQuotes(v) + "\""
    ensures Lower(t.name) == "string" && '\\' !in v ==> ReadStrRef(r) == Some(v)
    ensures Lower(t.name) == "bool" ==> (r == "true" <==> v == "1") && (r == "true" || r == "false")
    ensures IsFloatName(Lower(t.name)) ==> '.' in r && (r == v <==> '.' in v) && (r == v || r == v + ".")
    ensures Lower(t.name) !in {"string", "bool", "float32", "float64"} ==> r == v
  {
    var kind := Lower(t.name);
    if kind == "string" then
      var r := "&\"" + EscapeQuotes(v) + "\"";
      assert r[2..|r| - 1] == EscapeQuotes(v);
      if '\\' !in v then EscapeQuotesRoundTrip(v); r else r
    else if kind == "bool" then (if v == "1" then "true" else "false")
    else if IsFloatName(kind) then
      if '.' in v then v else (var r := v + "."; assert r[|v|] == '.'; r)
    else v
  }

  /** Without a backslash in the value, escaping only quotes is the full escaping. */
  lemma {:induction false} EscapeQuotesIsEscapeRust(v: string)
    requires '\\' !in v
    ensures EscapeQuotes(v) == EscapeRust(v)
  {
    if v != [] {
      assert '\\' !in v[1..];
      EscapeQuotesIsEscapeRust(v[1..]);
    }
  }

  /** Quote-only escaping of a backslash-free text followed by one backslash never closes as a string body. */
  lemma {:induction false} DanglingBackslash(w: string)
    requires '\\' !in w
    ensures Unescape(EscapeQuotes(w) + "\\") == None
  {
    var e := EscapeQuotes(w) + "\\";
    if w == [] {
      assert e == "\\";
    } else {
      assert '\\' !in w[1..];
      DanglingBackslash(w[1..]);
      var tail := EscapeQuotes(w[1..]) + "\\";
      if w[0] == '"' {
        assert e == "\\\"" + tail;
        assert e[2..] == tail;
      } else {
        assert e == [w[0]] + tail;
        assert e[1..] == tail;
      }
    }
  }

  /**
   * The emitter as lib.rs writes it breaks on a string constant whose only
   * backslash is its last character: the emitted text is not a string
   * literal, so the generated code does not compile.
   */
  lemma StringConstWithTrailingBackslash(t: MsgType, w: string)
    requires Lower(t.name) == "string" && '\\' !in w
    ensures ReadStrRef(ConstValue(t, w + "\\")) == None
  {
    var v := w + "\\";
    assert v[..|w|] == w;
    assert forall k | 0 <= k < |v| :: v[k] == '\\' ==> k == |w|;
    EscapeQuotesAppend(w, "\\");
    DanglingBackslash(w);
    var r := ConstValue(t, v);
    assert r[2..|r| - 1] == EscapeQuotes(w) + "\\";
  }

  /** Escaping only quotes distributes over concatenation. */
  lemma {:induction false} EscapeQuotesAppend(a: string, b: string)
    ensures EscapeQuotes(a + b) == EscapeQuotes(a) + EscapeQuotes(b)
  {
    if a == [] {
      assert a + b == b;
    } else {
      assert (a + b)[0] == a[0];
      assert (a + b)[1..] == a[1..] + b;
      EscapeQuotesAppend(a[1..], b);
      var h := if a[0] == '"' then "\\\"" else [a[0]];
      assert EscapeQuotes(a + b) == h + (EscapeQuotes(a[1..]) + EscapeQuotes(b));
      assert EscapeQuotes(a) == h + EscapeQuotes(a[1..]);
    }
  }

  /**
   * The evidently intended constant value: a string constant escapes its
   * backslashes as well as its quotes, and so always denotes the value;
   * every other kind is emitted as lib.rs does.
   */
  function ConstValueFixed(t: MsgType, v: string): (r: string)
    ensures Lower(t.name) == "string" ==> ReadStrRef(r) == Some(v)
    ensures Lower(t.name) != "string" ==> r == ConstValue(t, v)
  {
    if Lower(t.name) == "string" then
      var r := "&\"" + EscapeRust(v) + "\"";
      assert r[2..|r| - 1] == EscapeRust(v);
      EscapeRustRoundTrip(v);
      r
    else ConstValue(t, v)
  }

  /** The corrected emitter differs from lib.rs's only on values that hold a backslash. */
  lemma ConstValuesAgree(t: MsgType, v: string)
    requires '\\' !in v
    ensures ConstValueFixed(t, v) == ConstValue(t, v)
  {
    EscapeQuotesIsEscapeRust(v);
  }

  /** One associated constant, `pub const r#name: T=value;`. */
  function ConstDecl(t: MsgType, name: string, v: string): string {
    "pub const r#" + name + ": " + ConstType(t) + "=" + ConstValue(t, v) + ";"
  }

  /** The associated constants of the constant statements, in order; fields add none. */
  function ImplConsts(stmts: seq<Statement>): string {
    if stmts == [] then ""
    else
      (match stmts[0] case Constant(t, name, v) => ConstDecl(t, name, v) case Field(_, _) => "")
      + ImplConsts(stmts[1..])
  }

  /** `as_struct_definition`: the struct of the fields, then the `impl` block of the constants. */
  function StructDefinition(name: string, stmts: seq<Statement>): string {
    "pub struct " + name + " {" + StructFields(stmts) + "}" + "impl " + name + " {" + ImplConsts(stmts) + "}"
  }

  /** The associated constants of consecutive statement lists follow one another. */
  lemma {:induction false} ImplConstsAppend(a: seq<Statement>, b: seq<Statement>)
    ensures ImplConsts(a + b) == ImplConsts(a) + ImplConsts(b)
  {
    if a != [] {
      assert (a + b)[0] == a[0];
      assert (a + b)[1..] == a[1..] + b;
      ImplConstsAppend(a[1..], b);
      var head := match a[0] case Constant(t, name, v) => ConstDecl(t, name, v) case Field(_, _) => "";
      AppendAssoc(head, ImplConsts(a[1..]), ImplConsts(b));
    } else {
      assert a + b == b;
    }
  }

  /** An associated constant as read back: its name, Rust type and value expression. */
  datatype ConstParts = ConstParts(name: string, rustType: string, value: string)

  /** Reads `pub const r#name: T=value;`, the value running to the final semicolon. */
  function ReadConstDecl(s: string): Option<ConstParts> {
    if StartsWith(s, "pub const r#") then ReadConstName(s[12..]) else None
  }

  function ReadConstName(u: string): Option<ConstParts> {
    match Find(u, ':')
    case None => None
    case Some(k) => ReadConstType(u[..k], u[k..])
  }

  function ReadConstType(name: string, u: string): Option<ConstParts> {
    if StartsWith(u, ": ") then
      match Find(u[2..], '=')
      case None => None
      case Some(m) => ReadConstValue(name, u[2..][..m], u[2..][m + 1..])
    else None
  }

  function ReadConstValue(name: string, ty: string, u: string): Option<ConstParts> {
    if u != [] && u[|u| - 1] == ';' then Some(ConstParts(name, ty, u[..|u| - 1])) else None
  }

  lemma ReadConstValueOf(name: string, ty: string, value: string)
    ensures ReadConstValue(name, ty, value + ";") == Some(ConstParts(name, ty, value))
  {
    SplitAt(value, ";", value + ";");
  }

  lemma ReadConstTypeOf(name: string, ty: string, value: string)
    requires '=' !in ty
    ensures ReadConstType(name, ": " + (ty + ("=" + (value + ";")))) == Some(ConstParts(name, ty, value))
  {
    var u := ": " + (ty + ("=" + (value + ";")));
    SplitAt(": ", ty + ("=" + (value + ";")), u);
    var v := u[2..];
    FindAfter(ty, "=" + (value + ";"), '=');
    SplitAt(ty, "=" + (value + ";"), v);
    SplitAt("=", value + ";", v[|ty|..]);
    assert v[|ty| + 1..] == v[|ty|..][1..];
    ReadConstValueOf(name, ty, value);
  }

  lemma ReadConstNameOf(name: string, ty: string, value: string)
    requires ':' !in name && '=' !in ty
    ensures ReadConstName(name + (": " + (ty + ("=" + (value + ";"))))) == Some(ConstParts(name, ty, value))
  {
    var tail := ": " + (ty + ("=" + (value + ";")));
    var u := name + tail;
    FindAfter(name, tail, ':');
    assert u[..|name|] == name;
    assert u[|name|..] == tail;
    ReadConstTypeOf(name, ty, value);
  }

  /** No constant type of a statement with identifier names holds `=`. */
  lemma ConstTypeLacksEquals(t: MsgType)
    requires IsIdent(t.name) && (t.packageName.Some? ==> IsIdent(t.packageName.value))
    ensures '=' !in ConstType(t)
  {
    IdentLacks(t.name, '=');
    BuiltinsLack('=');
    if t.packageName.Some? {
      IdentLacks(t.packageName.value, '=');
    }
  }

  lemma ConstDeclPieces(name: string, ty: string, value: string, s: string)
    requires s == "pub const r#" + name + ": " + ty + "=" + value + ";"
    ensures s == "pub const r#" + (name + (": " + (ty + ("=" + (value + ";")))))
  {
  }

  /**
   * An associated constant reads back as its name, its Rust type and its
   * value expression; for a string constant that expression denotes the
   * constant's value exactly.
   */
  lemma ConstDeclRoundTrip(t: MsgType, name: string, v: string)
    requires IsIdent(name) && IsIdent(t.name) && (t.packageName.Some? ==> IsIdent(t.packageName.value))
    ensures ReadConstDecl(ConstDecl(t, name, v)) == Some(ConstParts(name, ConstType(t), ConstValue(t, v)))
    ensures Lower(t.name) == "string" && '\\' !in v ==> ReadStrRef(ReadConstDecl(ConstDecl(t, name, v)).value.value) == Some(v)
  {
    var ty := ConstType(t);
    var value := ConstValue(t, v);
    IdentLacks(name, ':');
    ConstTypeLacksEquals(t);
    var body := name + (": " + (ty + ("=" + (value + ";"))));
    ConstDeclPieces(name, ty, value, ConstDecl(t, name, v));
    SplitAt("pub const r#", body, ConstDecl(t, name, v));
    ReadConstNameOf(name, ty, value);
  }

  /** Reads a whole definition back: the struct name, its field declarations, and the text of the `impl` block. */
  function ReadStruct(s: string): Option<(string, seq<Decl>, string)> {
    if StartsWith(s, "pub struct ") then ReadStructName(s[11..]) else None
  }

  function ReadStructName(u: string): Option<(string, seq<Decl>, string)> {
    match Find(u, ' ')
    case None => None
    case Some(k) => ReadStructBody(u[..k], u[k..])
  }

  function ReadStructBody(name: string, u: string): Option<(string, seq<Decl>, string)> {
    if StartsWith(u, " {") then
      match ReadFields(u[2..])
      case None => None
      case Some((ds, w)) => ReadImpl(name, ds, w)
    else None
  }

  function ReadImpl(name: string, ds: seq<Decl>, w: string): Option<(string, seq<Decl>, string)> {
    var head := "impl " + name + " {";
    if StartsWith(w, head) && |w| > |head| && w[|w| - 1] == '}' then Some((name, ds, w[|head|..|w| - 1]))
    else None
  }

  lemma ReadImplOf(name: string, ds: seq<Decl>, consts: string)
    ensures ReadImpl(name, ds, "impl " + name + " {" + consts + "}") == Some((name, ds, consts))
  {
    var head := "impl " + name + " {";
    var w := head + consts + "}";
    assert w[..|head|] == head;
    assert w[|head|..|w| - 1] == consts;
  }

  lemma ReadStructNameOf(name: string, tail: string)
    requires ' ' !in name && tail != [] && tail[0] == ' '
    ensures ReadStructName(name + tail) == ReadStructBody(name, tail)
  {
    FindAfter(name, tail, ' ');
    assert (name + tail)[..|name|] == name;
    assert (name + tail)[|name|..] == tail;
  }

  lemma ReadStructBodyOf(name: string, fields: string, w: string, ds: seq<Decl>)
    requires ReadFields(fields + ("}" + w)) == Some((ds, w))
    ensures ReadStructBody(name, " {" + (fields + ("}" + w))) == ReadImpl(name, ds, w)
  {
    SplitAt(" {", fields + ("}" + w), " {" + (fields + ("}" + w)));
  }

  /** How a definition's pieces nest. */
  lemma DefinitionPieces(name: string, fields: string, w: string, consts: string, tail: string)
    requires w == "impl " + name + " {" + consts + "}"
    requires tail == " {" + (fields + ("}" + w))
    ensures "pub struct " + name + " {" + fields + "}" + "impl " + name + " {" + consts + "}"
         == "pub struct " + (name + tail)
  {
  }

  /** A text laid out as a definition reads back as its name, its field declarations and its constants' text. */
  lemma ReadStructOf(name: string, fields: string, consts: string, ds: seq<Decl>)
    requires ' ' !in name
    requires ReadFields(fields + ("}" + ("impl " + name + " {" + consts + "}"))) == Some((ds, "impl " + name + " {" + consts + "}"))
    ensures ReadStruct("pub struct " + name + " {" + fields + "}" + "impl " + name + " {" + consts + "}") == Some((name, ds, consts))
  {
    var w := "impl " + name + " {" + consts + "}";
    var tail := " {" + (fields + ("}" + w));
    var s := "pub struct " + name + " {" + fields + "}" + "impl " + name + " {" + consts + "}";
    assert ReadStruct(s) == ReadStructName(name + tail) by {
      DefinitionPieces(name, fields, w, consts, tail);
      SplitAt("pub struct ", name + tail, s);
    }
    ReadStructNameOf(name, tail);
    ReadStructBodyOf(name, fields, w, ds);
    ReadImplOf(name, ds, consts);
  }

  /**
   * A generated definition reads back as the message's name, the field
   * statements' declarations in order, and the constant statements'
   * associated constants, in the `impl` block that follows the struct.
   */
  lemma StructDefinitionRoundTrip(name: string, stmts: seq<Statement>)
    requires IsIdent(name)
    requires forall i | 0 <= i < |stmts| :: IdentNames(stmts[i])
    ensures ReadStruct(StructDefinition(name, stmts)) == Some((name, DeclsOf(stmts), ImplConsts(stmts)))
  {
    IdentLacksSpace(name);
    StructFieldsRoundTrip(stmts, "impl " + name + " {" + ImplConsts(stmts) + "}");
    ReadStructOf(name, StructFields(stmts), ImplConsts(stmts), DeclsOf(stmts));
  }

  // ---------------------------------------------------------------------
  // What the message grammar produces can be emitted and read back

  lemma PackageIdent(s: string, i: nat)
    requires i <= |s|
    ensures Package(s, i).value.Some? ==> IsIdent(Package(s, i).value.value)
  {
  }

  lemma TypeAtIdents(s: string, i: nat)
    requires i <= |s|
    ensures TypeAt(s, i).Some? ==> var t := TypeAt(s, i).value.value;
              IsIdent(t.name) && (t.packageName.Some? ==> IsIdent(t.packageName.value))
  {
    PackageIdent(s, i);
  }

  lemma ConstantIdents(s: string, i: nat)
    requires i <= |s|
    ensures ConstantAt(s, i).Some? ==> IdentNames(ConstantAt(s, i).value.value)
  {
    TypeAtIdents(s, i);
    match TypeAt(s, i)
    case None =>
    case Some(ty) =>
      match IdentEnd(s, ty.next)
      case None =>
      case Some(e) =>
        assert ConstantAfterType(s, ty.value, ty.next) == ConstantValue(s, ty.value, ty.next, e);
  }

  lemma FieldIdents(s: string, i: nat)
    requires i <= |s|
    ensures FieldAt(s, i).Some? ==> IdentNames(FieldAt(s, i).value.value)
  {
    TypeAtIdents(s, i);
  }

  lemma StatementIdents(s: string, i: nat)
    requires i <= |s|
    ensures ParseStatement(s, i).Some? ==> IdentNames(ParseStatement(s, i).value.value)
  {
    ConstantIdents(s, SkipWhitespace(s, i));
    FieldIdents(s, SkipWhitespace(s, i));
  }

  /** Every statement the grammar reads has identifier names. */
  lemma {:induction false} ParsedIdents(s: string, i: nat)
    requires i <= |s|
    ensures forall k | 0 <= k < |ParseFrom(s, i)| :: IdentNames(ParseFrom(s, i)[k])
    decreases |s| - i
  {
    var c := Comments(s, i);
    StatementIdents(s, c);
    match ParseStatement(s, c)
    case None =>
    case Some(st) =>
      ParsedIdents(s, st.next);
      var rest := ParseFrom(s, st.next);
      assert ParseFrom(s, i) == [st.value] + rest;
      assert forall k | 1 <= k < |ParseFrom(s, i)| :: ParseFrom(s, i)[k] == rest[k - 1];
  }

  /**
   * Whatever text the grammar reads, the definition generated from its
   * statements under an identifier name reads back as that name, the
   * field statements' declarations in order, and the constants' block.
   */
  lemma ParsedDefinitionRoundTrip(name: string, text: string)
    requires IsIdent(name)
    ensures ReadStruct(StructDefinition(name, Parse(text)))
         == Some((name, DeclsOf(Parse(text)), ImplConsts(Parse(text))))
  {
    ParsedIdents(text, 0);
    StructDefinitionRoundTrip(name, Parse(text));
  }
}
