/**
 * The grammar of ROS message definitions as frost-codegen's `parser()` reads
 * them (frost-codegen/src/parsing.rs), written out as a hand-written parser.
 * Every parser reads the text `s` from a position `i` and hands back what it
 * recognised together with the position after it; a failed alternative
 * consumes nothing, as chumsky's combinators backtrack.
 */
module MsgGrammar {
  import opened Wrappers
  import opened Text

  /**
   * A field or constant type: an optional package, the type name, whether
   * brackets follow, and the number between them.
   */
  datatype MsgType = MsgType(packageName: Option<string>, name: string, isArray: bool, arraySize: Option<nat>)

  /**
   * A statement of a message definition. `get_type` and `get_name` are the
   * destructors `msgType` and `name`, which both variants share.
   */
  datatype Statement =
    | Field(msgType: MsgType, name: string)
    | Constant(msgType: MsgType, name: string, value: string)

  /** What a parser recognised, and the position after it. */
  datatype Parsed<+T> = Parsed(value: T, next: nat)

  /** One more than the largest `usize` of a 64-bit target. */
  const UsizeLimit: nat := 0x1_0000_0000_0000_0000

  /** `digits.parse::<usize>().unwrap_or_default()`: the value, or 0 when it does not fit a `usize`. */
  function ArraySize(digits: string): nat
    requires AllDigits(digits)
  {
    var n := DigitsValue(digits);
    if n < UsizeLimit then n else 0
  }

  predicate NotNewline(c: char) {
    c != '\n'
  }

  /** `padded()`: the whitespace from `i` on is skipped. */
  function SkipWhitespace(s: string, i: nat): (j: nat)
    requires i <= |s|
    ensures i <= j <= |s|
  {
    SpanEnd(s, i, IsWhitespace)
  }

  /** `text::ident()`: the end of the longest identifier starting at `i`. */
  function IdentEnd(s: string, i: nat): (r: Option<nat>)
    requires i <= |s|
    ensures r.Some? <==> i < |s| && IsIdentStart(s[i])
    ensures r.Some? ==> && i < r.value <= |s| && IsIdent(s[i..(r.value)])
                        && (r.value == |s| || !IsIdentChar(s[r.value]))
  {
    if i < |s| && IsIdentStart(s[i]) then
      var j := SpanEnd(s, i + 1, IsIdentChar);
      SpanEndAll(s, i + 1, IsIdentChar);
      assert forall k | 1 <= k < j - i :: s[i..j][k] == s[i + k];
      Some(j)
    else None
  }

  /** `text::digits(10)`: the end of the longest non-empty run of ASCII digits starting at `i`. */
  function DigitsEnd(s: string, i: nat): (r: Option<nat>)
    requires i <= |s|
    ensures r.Some? <==> i < |s| && IsDigit(s[i])
    ensures r.Some? ==> && i < r.value <= |s| && AllDigits(s[i..(r.value)])
                        && (r.value == |s| || !IsDigit(s[r.value]))
  {
    var j := SpanEnd(s, i, IsDigit);
    SpanEndAll(s, i, IsDigit);
    assert forall k | 0 <= k < j - i :: s[i..j][k] == s[i + k];
    if j == i then None else Some(j)
  }

  /** `take_until(just('\n'))`: the position of the first newline from `i` on. */
  function NewlineAt(s: string, i: nat): (r: Option<nat>)
    requires i <= |s|
    ensures r.Some? <==> '\n' in s[i..]
    ensures r.Some? ==> i <= r.value < |s| && s[r.value] == '\n' && '\n' !in s[i..(r.value)]
  {
    var j := SpanEnd(s, i, NotNewline);
    SpanEndAll(s, i, NotNewline);
    assert forall k | 0 <= k < j - i :: s[i..j][k] == s[i + k];
    if j == |s| then
      assert forall k | 0 <= k < |s| - i :: s[i..][k] == s[i + k];
      None
    else
      assert s[i..][j - i] == '\n';
      Some(j)
  }

  /** One `#` comment up to and including its newline, with the whitespace around it. */
  function Comment(s: string, i: nat): (r: Option<nat>)
    requires i <= |s|
    ensures r.Some? ==> i < r.value <= |s|
  {
    var t := SkipWhitespace(s, i);
    if t < |s| && s[t] == '#' then
      match NewlineAt(s, t + 1)
      case Some(n) => Some(SkipWhitespace(s, n + 1))
      case None => None
    else None
  }

  /** `comment.repeated()`: as many comments as follow one another. */
  function Comments(s: string, i: nat): (j: nat)
    requires i <= |s|
    ensures i <= j <= |s|
    decreases |s| - i
  {
    match Comment(s, i)
    case Some(t) => Comments(s, t)
    case None => i
  }

  /** An optional `ident/` package prefix. */
  function Package(s: string, i: nat): (r: Parsed<Option<string>>)
    requires i <= |s|
    ensures i <= r.next <= |s|
  {
    match IdentEnd(s, i)
    case Some(e) => if e < |s| && s[e] == '/' then Parsed(Some(s[i..e]), e + 1) else Parsed(None, i)
    case None => Parsed(None, i)
  }

  /**
   * The optional `[digits?]` suffix: `None` without a complete bracket pair,
   * `Some(None)` for `[]`, `Some(Some(n))` for `[digits]`.
   */
  function Brackets(s: string, i: nat): (r: Parsed<Option<Option<nat>>>)
    requires i <= |s|
    ensures i <= r.next <= |s|
  {
    if i < |s| && s[i] == '[' then
      var inside: Parsed<Option<nat>> := match DigitsEnd(s, i + 1)
                                         case Some(e) => Parsed(Some(ArraySize(s[i + 1..e])), e)
                                         case None => Parsed(None, i + 1);
      var t := inside.next;
      if t < |s| && s[t] == ']' then Parsed(Some(inside.value), t + 1) else Parsed(None, i)
    else Parsed(None, i)
  }

  /**
   * `type_name` from a position where the leading whitespace has already been
   * skipped: package, name and bracket suffix, and the whitespace after them.
   */
  function TypeAt(s: string, i: nat): (r: Option<Parsed<MsgType>>)
    requires i <= |s|
    ensures r.Some? ==> i < r.value.next <= |s|
  {
    var pkg := Package(s, i);
    match IdentEnd(s, pkg.next)
    case None => None
    case Some(e) =>
      var arr := Brackets(s, e);
      var size := if arr.value.Some? then arr.value.value else None;
      Some(Parsed(MsgType(pkg.value, s[pkg.next..e], arr.value.Some?, size), SkipWhitespace(s, arr.next)))
  }

  /** The constant alternative: `type name=value` up to the newline, the value trimmed. */
  function ConstantStatement(s: string, i: nat): (r: Option<Parsed<Statement>>)
    requires i <= |s|
    ensures r.Some? ==> i < r.value.next <= |s|
  {
    ConstantAt(s, SkipWhitespace(s, i))
  }

  /**
   * The constant alternative once leading whitespace is skipped; the padding
   * in front of `type_name` then has nothing more to skip.
   */
  function ConstantAt(s: string, i: nat): (r: Option<Parsed<Statement>>)
    requires i <= |s|
    ensures r.Some? ==> i < r.value.next <= |s|
  {
    match TypeAt(s, i)
    case None => None
    case Some(ty) => ConstantAfterType(s, ty.value, ty.next)
  }

  /** The rest of a constant after its type: its name at `a`. */
  function ConstantAfterType(s: string, t: MsgType, a: nat): (r: Option<Parsed<Statement>>)
    requires a <= |s|
    ensures r.Some? ==> a < r.value.next <= |s|
  {
    match IdentEnd(s, a)
    case None => None
    case Some(e) => ConstantValue(s, t, a, e)
  }

  /** The rest of a constant after its name, which spans `a` to `e`: `=` and the value up to the newline. */
  function ConstantValue(s: string, t: MsgType, a: nat, e: nat): (r: Option<Parsed<Statement>>)
    requires a <= e <= |s|
    ensures r.Some? ==> e < r.value.next <= |s|
  {
    if e < |s| && s[e] == '=' then
      match NewlineAt(s, e + 1)
      case None => None
      case Some(n) => Some(Parsed(Constant(t, s[a..e], Trim(s[e + 1..n])), SkipWhitespace(s, n + 1)))
    else None
  }

  /** The field alternative: `type name`. */
  function FieldStatement(s: string, i: nat): (r: Option<Parsed<Statement>>)
    requires i <= |s|
    ensures r.Some? ==> i < r.value.next <= |s|
  {
    FieldAt(s, SkipWhitespace(s, i))
  }

  /** The field alternative once leading whitespace is skipped. */
  function FieldAt(s: string, i: nat): (r: Option<Parsed<Statement>>)
    requires i <= |s|
    ensures r.Some? ==> i < r.value.next <= |s|
  {
    match TypeAt(s, i)
    case None => None
    case Some(ty) =>
      match IdentEnd(s, ty.next)
      case None => None
      case Some(e) => Some(Parsed(Field(ty.value, s[ty.next..e]), SkipWhitespace(s, e)))
  }

  /** A statement: the constant alternative first, the field alternative otherwise. */
  function ParseStatement(s: string, i: nat): (r: Option<Parsed<Statement>>)
    requires i <= |s|
    ensures r.Some? ==> i < r.value.next <= |s|
  {
    match ConstantStatement(s, i)
    case Some(c) => Some(c)
    case None => FieldStatement(s, i)
  }

  /**
   * Statements from `i` on: `name.padded_by(comment.repeated().or_not()).repeated()`.
   * The comments there are skipped, then a statement is read and the rest
   * parsed in turn, as long as a statement can be read; the comments after one
   * statement and before the next form a single run.
   */
  function ParseFrom(s: string, i: nat): seq<Statement>
    requires i <= |s|
    decreases |s| - i, 1
  {
    StatementsAt(s, Comments(s, i))
  }

  /** Statements from a position where the comments have been skipped. */
  function StatementsAt(s: string, i: nat): seq<Statement>
    requires i <= |s|
    decreases |s| - i, 0
  {
    match ParseStatement(s, i)
    case None => []
    case Some(st) => [st.value] + ParseFrom(s, st.next)
  }

  /**
   * `parse`: the statements of a message definition. The text from the first
   * place where no statement starts is left unread; the grammar has no error
   * recovery and its repetition accepts zero items, so parsing never fails.
   */
  function Parse(s: string): seq<Statement> {
    ParseFrom(s, 0)
  }

  // ---------------------------------------------------------------------
  // The surface syntax of well-formed message definitions, and its rendering

  /** A type as written: optional package, name, and no brackets, `[]` or `[digits]`. */
  datatype TypeText = TypeText(package: Option<string>, name: string, brackets: Option<Option<string>>)

  /** One line of a message definition. */
  datatype Line =
    | FieldLine(indent: string, ty: TypeText, name: string, comment: Option<string>)
    | ConstantLine(indent: string, ty: TypeText, name: string, raw: string)
    | CommentLine(indent: string, text: string)
    | BlankLine(indent: string)

  predicate WellFormedType(t: TypeText) {
    && (t.package.Some? ==> IsIdent(t.package.value))
    && IsIdent(t.name)
    && (t.brackets.Some? && t.brackets.value.Some? ==>
          t.brackets.value.value != [] && AllDigits(t.brackets.value.value))
  }

  predicate WellFormedLine(l: Line) {
    && AllWhitespace(l.indent)
    && match l
       case FieldLine(_, ty, name, comment) =>
         WellFormedType(ty) && IsIdent(name) && (comment.Some? ==> '\n' !in comment.value)
       case ConstantLine(_, ty, name, raw) => WellFormedType(ty) && IsIdent(name) && '\n' !in raw
       case CommentLine(_, text) => '\n' !in text
       case BlankLine(_) => true
  }

  predicate WellFormedLines(ls: seq<Line>) {
    forall i | 0 <= i < |ls| :: WellFormedLine(ls[i])
  }

  function RenderPackage(t: TypeText): string {
    match t.package
    case Some(p) => p + "/"
    case None => ""
  }

  function RenderBrackets(t: TypeText): string {
    match t.brackets
    case None => ""
    case Some(None) => "[]"
    case Some(Some(d)) => "[" + d + "]"
  }

  function RenderType(t: TypeText): string {
    RenderPackage(t) + t.name + RenderBrackets(t)
  }

  function RenderComment(comment: Option<string>): string {
    match comment
    case Some(c) => "#" + c
    case None => ""
  }

  /** What follows the indentation of a line, up to and including its newline. */
  function RenderBody(l: Line): string {
    match l
    case FieldLine(_, ty, name, comment) => RenderType(ty) + " " + name + RenderComment(comment) + "\n"
    case ConstantLine(_, ty, name, raw) => RenderType(ty) + " " + name + "=" + raw + "\n"
    case CommentLine(_, text) => "#" + text + "\n"
    case BlankLine(_) => "\n"
  }

  function RenderLine(l: Line): string {
    l.indent + RenderBody(l)
  }

  function RenderLines(ls: seq<Line>): string {
    if ls == [] then [] else RenderLine(ls[0]) + RenderLines(ls[1..])
  }

  /** The type a written type stands for. */
  function TypeOf(t: TypeText): MsgType
    requires WellFormedType(t)
  {
    var size := match t.brackets case Some(Some(d)) => Some(ArraySize(d)) case _ => None;
    MsgType(t.package, t.name, t.brackets.Some?, size)
  }

  /** The statement a line stands for: none for comment and blank lines. */
  function LineStatements(l: Line): seq<Statement>
    requires WellFormedLine(l)
  {
    match l
    case FieldLine(_, ty, name, _) => [Field(TypeOf(ty), name)]
    case ConstantLine(_, ty, name, raw) => [Constant(TypeOf(ty), name, Trim(raw))]
    case _ => []
  }

  /** The statements a sequence of lines stands for, in order. */
  function StatementsOf(ls: seq<Line>): seq<Statement>
    requires WellFormedLines(ls)
  {
    if ls == [] then [] else LineStatements(ls[0]) + StatementsOf(ls[1..])
  }


  // ---------------------------------------------------------------------
  // The pieces on rendered text
  //
  // Positions the parser reaches are passed to the lemmas below as
  // parameters, tied to the rendered pieces by `requires` equalities, so that
  // every lemma speaks of the parse at exactly the positions its caller does.

  /**
   * `x` occurs in `s` at position `i`. Stated character by character rather
   * than as a slice equality, so that a fact about a long rendered text is
   * unfolded only as far as a proof asks.
   */
  predicate Occurs(s: string, i: nat, x: string)
    ensures Occurs(s, i, x) ==> i + |x| <= |s|
    decreases |x|
  {
    if x == [] then i <= |s| else i < |s| && s[i] == x[0] && Occurs(s, i + 1, x[1..])
  }

  lemma {:induction false} OccursSplit(s: string, i: nat, a: string, b: string, j: nat)
    requires Occurs(s, i, a + b) && j == i + |a|
    ensures Occurs(s, i, a) && Occurs(s, j, b)
    decreases |a|
  {
    if a == [] {
      assert a + b == b;
    } else {
      assert (a + b)[1..] == a[1..] + b;
      OccursSplit(s, i + 1, a[1..], b, j);
    }
  }

  lemma {:induction false} OccursChar(s: string, i: nat, x: string, k: nat)
    requires Occurs(s, i, x) && k < |x|
    ensures s[i + k] == x[k]
    decreases k
  {
    if k > 0 {
      OccursChar(s, i + 1, x[1..], k - 1);
    }
  }

  lemma OccursSlice(s: string, i: nat, x: string, j: nat)
    requires Occurs(s, i, x) && j == i + |x|
    ensures s[i..j] == x
  {
    forall k | 0 <= k < |x|
      ensures s[i..j][k] == x[k]
    {
      OccursChar(s, i, x, k);
    }
  }

  /** A text occurs in any text it starts after `p`. */
  lemma {:induction false} OccursAfter(p: string, x: string, y: string)
    ensures Occurs(p + x + y, |p|, x)
    decreases |x|
  {
    if x != [] {
      assert (p + x + y)[|p|] == x[0];
      assert p + x + y == (p + [x[0]]) + x[1..] + y;
      OccursAfter(p + [x[0]], x[1..], y);
    }
  }

  /** `OccursAfter` at a position given by the caller. */
  lemma OccursAt(p: string, x: string, y: string, i: nat)
    requires i == |p|
    ensures Occurs(p + x + y, i, x)
  {
    OccursAfter(p, x, y);
  }

  lemma SkipNoWhitespace(s: string, i: nat)
    requires i < |s| && !IsWhitespace(s[i])
    ensures SkipWhitespace(s, i) == i
  {
  }

  lemma SkipWhitespaceIdempotent(s: string, i: nat)
    requires i <= |s|
    ensures SkipWhitespace(s, SkipWhitespace(s, i)) == SkipWhitespace(s, i)
  {
  }

  /** Whitespace occurring at `i` is skipped over. */
  lemma SkipWhitespaceOver(s: string, i: nat, w: string, j: nat)
    requires Occurs(s, i, w) && AllWhitespace(w) && j == i + |w|
    ensures SkipWhitespace(s, i) == SkipWhitespace(s, j)
  {
    forall k | i <= k < j
      ensures IsWhitespace(s[k])
    {
      OccursChar(s, i, w, k - i);
    }
    SpanEndSkips(s, i, j, IsWhitespace);
  }

  /** A single space before a non-blank character is skipped to that character. */
  lemma SkipOneSpace(s: string, i: nat)
    requires i + 1 < |s| && s[i] == ' ' && !IsWhitespace(s[i + 1])
    ensures SkipWhitespace(s, i) == i + 1
  {
    assert SkipWhitespace(s, i + 1) == i + 1;
  }

  lemma IdentOf(s: string, i: nat, x: string, e: nat)
    requires Occurs(s, i, x) && IsIdent(x) && e == i + |x|
    requires e == |s| || !IsIdentChar(s[e])
    ensures IdentEnd(s, i) == Some(e) && s[i..e] == x
  {
    OccursChar(s, i, x, 0);
    forall k | i + 1 <= k < e
      ensures IsIdentChar(s[k])
    {
      OccursChar(s, i, x, k - i);
    }
    SpanEndSkips(s, i + 1, e, IsIdentChar);
    OccursSlice(s, i, x, e);
  }

  lemma DigitsOf(s: string, i: nat, d: string, e: nat)
    requires Occurs(s, i, d) && d != [] && AllDigits(d) && e == i + |d|
    requires e == |s| || !IsDigit(s[e])
    ensures DigitsEnd(s, i) == Some(e) && s[i..e] == d
  {
    forall k | i <= k < e
      ensures IsDigit(s[k])
    {
      OccursChar(s, i, d, k - i);
    }
    SpanEndSkips(s, i, e, IsDigit);
    OccursSlice(s, i, d, e);
  }

  lemma NewlineOf(s: string, i: nat, v: string, n: nat)
    requires Occurs(s, i, v + "\n") && '\n' !in v && n == i + |v|
    ensures NewlineAt(s, i) == Some(n) && s[i..n] == v
  {
    OccursSplit(s, i, v, "\n", n);
    forall k | i <= k < n
      ensures NotNewline(s[k])
    {
      OccursChar(s, i, v, k - i);
    }
    SpanEndSkips(s, i, n, NotNewline);
    OccursChar(s, n, "\n", 0);
    OccursSlice(s, i, v, n);
  }

  // ---------------------------------------------------------------------
  // Types

  /** An identifier followed by `/` is read as a package. */
  lemma PackageSome(s: string, i: nat, p: string, k: nat)
    requires Occurs(s, i, p + "/") && IsIdent(p) && k == i + |p| + 1
    ensures Package(s, i) == Parsed(Some(p), k)
  {
    OccursSplit(s, i, p, "/", k - 1);
    OccursChar(s, k - 1, "/", 0);
    IdentOf(s, i, p, k - 1);
  }

  /** An identifier followed by neither `/` nor an identifier character is no package. */
  lemma PackageNone(s: string, i: nat, x: string, e: nat)
    requires Occurs(s, i, x) && IsIdent(x) && e == i + |x|
    requires e < |s| && !IsIdentChar(s[e]) && s[e] != '/'
    ensures Package(s, i) == Parsed(None, i)
  {
    IdentOf(s, i, x, e);
  }

  /** `[]` is read as an array without a size. */
  lemma BracketsEmpty(s: string, i: nat)
    requires Occurs(s, i, "[]")
    ensures Brackets(s, i) == Parsed(Some(None), i + 2)
  {
    OccursChar(s, i, "[]", 0);
    OccursChar(s, i, "[]", 1);
  }

  /** `[digits]` is read as an array of the size the digits spell. */
  lemma BracketsSized(s: string, i: nat, d: string, j: nat)
    requires Occurs(s, i, "[" + d + "]") && d != [] && AllDigits(d) && j == i + |d| + 2
    ensures Brackets(s, i) == Parsed(Some(Some(ArraySize(d))), j)
  {
    var e := i + 1 + |d|;
    OccursSplit(s, i, "[" + d, "]", e);
    OccursSplit(s, i, "[", d, i + 1);
    OccursChar(s, i, "[", 0);
    OccursChar(s, e, "]", 0);
    DigitsOf(s, i + 1, d, e);
    assert e + 1 == j;
  }

  /** The type a rendered type stands for, piece by piece, with the position after each piece. */
  lemma TypePieces(s: string, i: nat, t: TypeText, k: nat, m: nat, e: nat)
    requires WellFormedType(t) && Occurs(s, i, RenderType(t))
    requires k == i + |RenderPackage(t)| && m == k + |t.name| && e == i + |RenderType(t)|
    ensures Occurs(s, i, RenderPackage(t)) && Occurs(s, k, t.name) && Occurs(s, m, RenderBrackets(t))
    ensures e == m + |RenderBrackets(t)|
  {
    OccursSplit(s, i, RenderPackage(t) + t.name, RenderBrackets(t), m);
    OccursSplit(s, i, RenderPackage(t), t.name, k);
  }

  /** The package prefix of a rendered type followed by whitespace. */
  lemma PackageOf(s: string, i: nat, t: TypeText, k: nat, m: nat, e: nat)
    requires WellFormedType(t) && Occurs(s, i, RenderType(t))
    requires k == i + |RenderPackage(t)| && m == k + |t.name| && e == i + |RenderType(t)|
    requires e < |s| && IsWhitespace(s[e])
    ensures Package(s, i) == Parsed(t.package, k)
  {
    TypePieces(s, i, t, k, m, e);
    if t.package.Some? {
      PackageSome(s, i, t.package.value, k);
    } else {
      if RenderBrackets(t) != [] {
        OccursChar(s, m, RenderBrackets(t), 0);
      }
      PackageNone(s, i, t.name, m);
    }
  }

  /** The bracket suffix of a rendered type followed by whitespace. */
  lemma BracketsOf(s: string, i: nat, t: TypeText, e: nat)
    requires WellFormedType(t) && Occurs(s, i, RenderBrackets(t)) && e == i + |RenderBrackets(t)|
    requires e < |s| && IsWhitespace(s[e])
    ensures Brackets(s, i) == Parsed(if t.brackets.Some? then Some(TypeOf(t).arraySize) else None, e)
  {
    match t.brackets
    case None =>
    case Some(None) => BracketsEmpty(s, i);
    case Some(Some(d)) => BracketsSized(s, i, d, e);
  }

  /** A rendered type followed by whitespace reads back as the type it stands for. */
  lemma TypeAtOf(s: string, i: nat, t: TypeText, e: nat)
    requires WellFormedType(t) && Occurs(s, i, RenderType(t)) && e == i + |RenderType(t)|
    requires e < |s| && IsWhitespace(s[e])
    ensures TypeAt(s, i) == Some(Parsed(TypeOf(t), SkipWhitespace(s, e)))
  {
    var k := i + |RenderPackage(t)|;
    var m := k + |t.name|;
    TypePieces(s, i, t, k, m, e);
    PackageOf(s, i, t, k, m, e);
    if RenderBrackets(t) != [] {
      OccursChar(s, m, RenderBrackets(t), 0);
    }
    IdentOf(s, k, t.name, m);
    BracketsOf(s, m, t, e);
  }

  /** A rendered type starts with an identifier character. */
  lemma RenderTypeStart(t: TypeText)
    requires WellFormedType(t)
    ensures RenderType(t) != [] && IsIdentStart(RenderType(t)[0])
  {
    assert RenderType(t) == RenderPackage(t) + (t.name + RenderBrackets(t));
    if t.package.Some? {
      assert RenderPackage(t)[0] == t.package.value[0];
    }
  }

  // ---------------------------------------------------------------------
  // Statements

  /** The type and the name at the front of a rendered statement. */
  lemma TypeAndName(s: string, i: nat, ty: TypeText, name: string, a: nat, e: nat)
    requires WellFormedType(ty) && IsIdent(name)
    requires Occurs(s, i, RenderType(ty) + " " + name)
    requires a == i + |RenderType(ty)| + 1 && e == a + |name|
    requires e == |s| || !IsIdentChar(s[e])
    ensures TypeAt(s, i) == Some(Parsed(TypeOf(ty), a))
    ensures IdentEnd(s, a) == Some(e) && s[a..e] == name
  {
    TypeBeforeName(s, i, ty, name, a);
    IdentOf(s, a, name, e);
  }

  /** A rendered type, a space and a name: the type reads up to the name. */
  lemma TypeBeforeName(s: string, i: nat, ty: TypeText, name: string, a: nat)
    requires WellFormedType(ty) && IsIdent(name)
    requires Occurs(s, i, RenderType(ty) + " " + name) && a == i + |RenderType(ty)| + 1
    ensures TypeAt(s, i) == Some(Parsed(TypeOf(ty), a)) && Occurs(s, a, name)
  {
    SpaceBeforeName(s, i, ty, name, a);
    SkipOneSpace(s, a - 1);
    TypeAtOf(s, i, ty, a - 1);
  }

  /** The pieces of a rendered type, a space and a name. */
  lemma SpaceBeforeName(s: string, i: nat, ty: TypeText, name: string, a: nat)
    requires IsIdent(name)
    requires Occurs(s, i, RenderType(ty) + " " + name) && a == i + |RenderType(ty)| + 1
    ensures Occurs(s, i, RenderType(ty)) && Occurs(s, a, name)
    ensures a < |s| && s[a - 1] == ' ' && !IsWhitespace(s[a])
  {
    OccursSplit(s, i, RenderType(ty) + " ", name, a);
    OccursSplit(s, i, RenderType(ty), " ", a - 1);
    OccursChar(s, a - 1, " ", 0);
    OccursChar(s, a, name, 0);
    IdentStartNotBlank(s[a]);
  }

  /** The pieces of a rendered constant line, with the position after each. */
  lemma ConstantPieces(s: string, i: nat, ty: TypeText, name: string, raw: string, e: nat, n: nat, j: nat)
    requires Occurs(s, i, RenderType(ty) + " " + name + "=" + raw + "\n")
    requires e == i + |RenderType(ty) + " " + name| && n == e + 1 + |raw|
    requires j == i + |RenderType(ty) + " " + name + "=" + raw + "\n"|
    ensures Occurs(s, i, RenderType(ty) + " " + name) && e < |s| && s[e] == '='
    ensures Occurs(s, e + 1, raw + "\n") && j == n + 1
  {
    var head := RenderType(ty) + " " + name;
    assert RenderType(ty) + " " + name + "=" + raw + "\n" == head + ("=" + (raw + "\n"));
    OccursSplit(s, i, head, "=" + (raw + "\n"), e);
    OccursSplit(s, e, "=", raw + "\n", e + 1);
    OccursChar(s, e, "=", 0);
  }

  /** The value of a constant: `=`, then the text up to the newline, trimmed. */
  lemma ConstantValueOf(s: string, t: MsgType, name: string, raw: string, a: nat, e: nat, n: nat, j: nat)
    requires a <= e < n < |s| && j == n + 1
    requires s[a..e] == name && s[e] == '='
    requires NewlineAt(s, e + 1) == Some(n) && s[e + 1..n] == raw
    ensures ConstantValue(s, t, a, e) == Some(Parsed(Constant(t, name, Trim(raw)), SkipWhitespace(s, j)))
  {
  }

  /** The constant alternative, given what each of its pieces reads. */
  lemma ConstantAtOf(s: string, i: nat, t: MsgType, name: string, raw: string, a: nat, e: nat, n: nat, j: nat)
    requires i <= a <= e < n < |s| && j == n + 1
    requires TypeAt(s, i) == Some(Parsed(t, a))
    requires IdentEnd(s, a) == Some(e) && s[a..e] == name && s[e] == '='
    requires NewlineAt(s, e + 1) == Some(n) && s[e + 1..n] == raw
    ensures ConstantAt(s, i) == Some(Parsed(Constant(t, name, Trim(raw)), SkipWhitespace(s, j)))
  {
    ConstantValueOf(s, t, name, raw, a, e, n, j);
    assert ConstantAfterType(s, t, a) == ConstantValue(s, t, a, e);
  }

  /** The field alternative on a rendered field, where the constant alternative fails. */
  lemma FieldAtOf(s: string, i: nat, ty: TypeText, name: string, a: nat, e: nat)
    requires WellFormedType(ty) && IsIdent(name)
    requires Occurs(s, i, RenderType(ty) + " " + name)
    requires a == i + |RenderType(ty)| + 1 && e == a + |name|
    requires e == |s| || (!IsIdentChar(s[e]) && s[e] != '=')
    ensures ConstantAt(s, i).None?
    ensures FieldAt(s, i) == Some(Parsed(Field(TypeOf(ty), name), SkipWhitespace(s, e)))
  {
    TypeAndName(s, i, ty, name, a, e);
  }

  /** An identifier starts with neither whitespace nor `#`. */
  lemma IdentStartNotBlank(c: char)
    requires IsIdentStart(c)
    ensures !IsWhitespace(c) && c != '#'
  {
  }

  /** A rendered statement starts with neither whitespace nor `#`. */
  lemma StatementStart(s: string, i: nat, ty: TypeText, x: string)
    requires WellFormedType(ty) && Occurs(s, i, RenderType(ty) + x)
    ensures i < |s| && !IsWhitespace(s[i]) && s[i] != '#'
  {
    RenderTypeStart(ty);
    OccursSplit(s, i, RenderType(ty), x, i + |RenderType(ty)|);
    OccursChar(s, i, RenderType(ty), 0);
    IdentStartNotBlank(s[i]);
  }

  /** At a non-blank character the statement parser is the constant alternative, else the field one. */
  lemma StatementAt(s: string, i: nat)
    requires i < |s| && !IsWhitespace(s[i])
    ensures ParseStatement(s, i) == if ConstantAt(s, i).Some? then ConstantAt(s, i) else FieldAt(s, i)
  {
    SkipNoWhitespace(s, i);
  }

  /** Where the constant alternative succeeds, it is the statement read. */
  lemma ConstantStatementAt(s: string, i: nat, st: Statement, j: nat)
    requires i < |s| && !IsWhitespace(s[i]) && ConstantAt(s, i) == Some(Parsed(st, j))
    ensures ParseStatement(s, i) == Some(Parsed(st, j))
  {
    SkipNoWhitespace(s, i);
  }

  // ---------------------------------------------------------------------
  // What parsing skips

  /** Leading whitespace does not change what a statement parser reads. */
  lemma StatementSkipsWhitespace(s: string, i: nat)
    requires i <= |s|
    ensures ParseStatement(s, SkipWhitespace(s, i)) == ParseStatement(s, i)
  {
    SkipWhitespaceIdempotent(s, i);
  }

  /** Parsing skips leading whitespace. */
  lemma ParseSkipsWhitespace(s: string, i: nat)
    requires i <= |s|
    ensures ParseFrom(s, SkipWhitespace(s, i)) == ParseFrom(s, i)
  {
    var t := SkipWhitespace(s, i);
    SkipWhitespaceIdempotent(s, i);
    assert Comment(s, t) == Comment(s, i);
    if Comment(s, i).None? {
      StatementSkipsWhitespace(s, i);
    }
  }

  /** Two positions that skip to the same place parse alike. */
  lemma ParseSameAfterWhitespace(s: string, i: nat, j: nat)
    requires i <= |s| && j <= |s| && SkipWhitespace(s, i) == SkipWhitespace(s, j)
    ensures ParseFrom(s, i) == ParseFrom(s, j)
  {
    ParseSkipsWhitespace(s, i);
    ParseSkipsWhitespace(s, j);
  }

  /** Parsing skips a comment. */
  lemma ParseSkipsComment(s: string, i: nat)
    requires i <= |s| && Comment(s, i).Some?
    ensures ParseFrom(s, i) == ParseFrom(s, Comment(s, i).value)
  {
    assert Comments(s, i) == Comments(s, Comment(s, i).value);
  }

  /** Parsing skips any run of comments. */
  lemma {:induction false} ParseSkipsComments(s: string, i: nat)
    requires i <= |s|
    ensures ParseFrom(s, Comments(s, i)) == ParseFrom(s, i)
    decreases |s| - i
  {
    match Comment(s, i)
    case Some(t) =>
      ParseSkipsComments(s, t);
      ParseSkipsComment(s, i);
    case None =>
  }

  /** Whitespace adds nothing to what is parsed. */
  lemma ParseSkipsIndent(s: string, i: nat, w: string, j: nat)
    requires Occurs(s, i, w) && AllWhitespace(w) && j == i + |w|
    ensures ParseFrom(s, i) == ParseFrom(s, j)
  {
    SkipWhitespaceOver(s, i, w, j);
    ParseSameAfterWhitespace(s, i, j);
  }

  /** A rendered `#` comment is one comment, up to the whitespace after its newline. */
  lemma CommentOf(s: string, i: nat, text: string, j: nat)
    requires Occurs(s, i, "#" + text + "\n") && '\n' !in text && j == i + |"#" + text + "\n"|
    ensures Comment(s, i) == Some(SkipWhitespace(s, j))
  {
    var n := j - 1;
    OccursChar(s, i, "#" + text + "\n", 0);
    SkipNoWhitespace(s, i);
    assert "#" + text + "\n" == "#" + (text + "\n");
    OccursSplit(s, i, "#", text + "\n", i + 1);
    NewlineOf(s, i + 1, text, n);
    assert n + 1 == j;
  }

  /** A `#` comment line adds nothing to what is parsed. */
  lemma ParseSkipsCommentLine(s: string, i: nat, text: string, j: nat)
    requires Occurs(s, i, "#" + text + "\n") && '\n' !in text && j == i + |"#" + text + "\n"|
    ensures ParseFrom(s, i) == ParseFrom(s, j)
  {
    CommentOf(s, i, text, j);
    ParseSkipsComment(s, i);
    ParseSkipsWhitespace(s, j);
  }

  /** Nothing is read at the end of the text. */
  lemma ParseAtEnd(s: string)
    ensures ParseFrom(s, |s|) == []
  {
    assert Comment(s, |s|).None?;
  }

  /** Text that starts with no whitespace, `#` or identifier holds no statement. */
  lemma StrayTextEndsParse(s: string, i: nat)
    requires i < |s| && !IsWhitespace(s[i]) && s[i] != '#' && !IsIdentStart(s[i])
    ensures ParseFrom(s, i) == []
  {
    SkipNoWhitespace(s, i);
    assert Comment(s, i).None?;
  }

  // ---------------------------------------------------------------------
  // Lines

  /** Parsing from a statement that starts with neither whitespace nor `#`. */
  lemma ParseOfStatement(s: string, i: nat, st: Statement, j: nat)
    requires i < |s| && !IsWhitespace(s[i]) && s[i] != '#'
    requires j <= |s| && ParseStatement(s, i) == Some(Parsed(st, j))
    ensures ParseFrom(s, i) == [st] + ParseFrom(s, j)
  {
    SkipNoWhitespace(s, i);
    assert Comment(s, i).None?;
    ParseSkipsComments(s, j);
  }

  /** The statement read at a rendered field. */
  lemma FieldParsed(s: string, i: nat, ty: TypeText, name: string, e: nat)
    requires WellFormedType(ty) && IsIdent(name)
    requires Occurs(s, i, RenderType(ty) + " " + name) && e == i + |RenderType(ty) + " " + name|
    requires e == |s| || (!IsIdentChar(s[e]) && s[e] != '=')
    ensures i < |s| && !IsWhitespace(s[i]) && s[i] != '#'
    ensures ParseStatement(s, i) == Some(Parsed(Field(TypeOf(ty), name), SkipWhitespace(s, e)))
  {
    assert RenderType(ty) + " " + name == RenderType(ty) + (" " + name);
    StatementStart(s, i, ty, " " + name);
    FieldAtOf(s, i, ty, name, i + |RenderType(ty)| + 1, e);
    StatementAt(s, i);
  }

  /** A rendered field reads back as its field, up to the whitespace after its name. */
  lemma FieldHead(s: string, i: nat, ty: TypeText, name: string, e: nat)
    requires WellFormedType(ty) && IsIdent(name)
    requires Occurs(s, i, RenderType(ty) + " " + name) && e == i + |RenderType(ty) + " " + name|
    requires e == |s| || (!IsIdentChar(s[e]) && s[e] != '=')
    ensures ParseFrom(s, i) == [Field(TypeOf(ty), name)] + ParseFrom(s, SkipWhitespace(s, e))
  {
    FieldParsed(s, i, ty, name, e);
    ParseOfStatement(s, i, Field(TypeOf(ty), name), SkipWhitespace(s, e));
  }

  /** The constant alternative reads a rendered constant line. */
  lemma ConstantRendered(s: string, i: nat, ty: TypeText, name: string, raw: string, j: nat)
    requires WellFormedType(ty) && IsIdent(name) && '\n' !in raw
    requires Occurs(s, i, RenderType(ty) + " " + name + "=" + raw + "\n")
    requires j == i + |RenderType(ty) + " " + name + "=" + raw + "\n"|
    ensures ConstantAt(s, i) == Some(Parsed(Constant(TypeOf(ty), name, Trim(raw)), SkipWhitespace(s, j)))
  {
    var a := i + |RenderType(ty)| + 1;
    var e := a + |name|;
    var n := e + 1 + |raw|;
    ConstantPieces(s, i, ty, name, raw, e, n, j);
    TypeAndName(s, i, ty, name, a, e);
    NewlineOf(s, e + 1, raw, n);
    ConstantAtOf(s, i, TypeOf(ty), name, raw, a, e, n, j);
  }

  /** A rendered constant line starts with neither whitespace nor `#`. */
  lemma ConstantStart(s: string, i: nat, ty: TypeText, name: string, raw: string)
    requires WellFormedType(ty) && Occurs(s, i, RenderType(ty) + " " + name + "=" + raw + "\n")
    ensures i < |s| && !IsWhitespace(s[i]) && s[i] != '#'
  {
    assert RenderType(ty) + " " + name + "=" + raw + "\n" == RenderType(ty) + (" " + name + "=" + raw + "\n");
    StatementStart(s, i, ty, " " + name + "=" + raw + "\n");
  }

  /** The statement read at a rendered constant line. */
  lemma ConstantParsed(s: string, i: nat, ty: TypeText, name: string, raw: string, j: nat)
    requires WellFormedType(ty) && IsIdent(name) && '\n' !in raw
    requires Occurs(s, i, RenderType(ty) + " " + name + "=" + raw + "\n")
    requires j == i + |RenderType(ty) + " " + name + "=" + raw + "\n"|
    ensures i < |s| && !IsWhitespace(s[i]) && s[i] != '#'
    ensures ParseStatement(s, i) == Some(Parsed(Constant(TypeOf(ty), name, Trim(raw)), SkipWhitespace(s, j)))
  {
    ConstantStart(s, i, ty, name, raw);
    ConstantRendered(s, i, ty, name, raw, j);
    ConstantStatementAt(s, i, Constant(TypeOf(ty), name, Trim(raw)), SkipWhitespace(s, j));
  }

  /** A rendered constant line reads back as its constant, up to the whitespace after its newline. */
  lemma ConstantHead(s: string, i: nat, ty: TypeText, name: string, raw: string, j: nat)
    requires WellFormedType(ty) && IsIdent(name) && '\n' !in raw
    requires Occurs(s, i, RenderType(ty) + " " + name + "=" + raw + "\n")
    requires j == i + |RenderType(ty) + " " + name + "=" + raw + "\n"|
    ensures ParseFrom(s, i) == [Constant(TypeOf(ty), name, Trim(raw))] + ParseFrom(s, SkipWhitespace(s, j))
  {
    ConstantParsed(s, i, ty, name, raw, j);
    ParseOfStatement(s, i, Constant(TypeOf(ty), name, Trim(raw)), SkipWhitespace(s, j));
  }

  /** A comment and its newline after a field add nothing. */
  lemma CommentTail(s: string, e: nat, text: string, j: nat)
    requires Occurs(s, e, "#" + text + "\n") && '\n' !in text && j == e + |"#" + text + "\n"|
    ensures ParseFrom(s, SkipWhitespace(s, e)) == ParseFrom(s, j)
  {
    ParseSkipsWhitespace(s, e);
    ParseSkipsCommentLine(s, e, text, j);
  }

  /** A newline after a field adds nothing. */
  lemma NewlineTail(s: string, e: nat, j: nat)
    requires Occurs(s, e, "\n") && j == e + 1
    ensures ParseFrom(s, SkipWhitespace(s, e)) == ParseFrom(s, j)
  {
    ParseSkipsWhitespace(s, e);
    ParseSkipsIndent(s, e, "\n", j);
  }

  /** The optional comment and the newline that end a field line add nothing. */
  lemma FieldTail(s: string, e: nat, comment: Option<string>, j: nat)
    requires comment.Some? ==> '\n' !in comment.value
    requires Occurs(s, e, RenderComment(comment) + "\n") && j == e + |RenderComment(comment) + "\n"|
    ensures ParseFrom(s, SkipWhitespace(s, e)) == ParseFrom(s, j)
  {
    match comment
    case Some(text) => CommentTail(s, e, text, j);
    case None =>
      assert RenderComment(comment) + "\n" == "\n";
      NewlineTail(s, e, j);
  }

  /** A rendered field line body reads back as its field. */
  lemma FieldBody(s: string, i: nat, ty: TypeText, name: string, comment: Option<string>, j: nat)
    requires WellFormedType(ty) && IsIdent(name) && (comment.Some? ==> '\n' !in comment.value)
    requires Occurs(s, i, RenderType(ty) + " " + name + RenderComment(comment) + "\n")
    requires j == i + |RenderType(ty) + " " + name + RenderComment(comment) + "\n"|
    ensures ParseFrom(s, i) == [Field(TypeOf(ty), name)] + ParseFrom(s, j)
  {
    var head := RenderType(ty) + " " + name;
    var tail := RenderComment(comment) + "\n";
    var e := i + |head|;
    assert RenderType(ty) + " " + name + RenderComment(comment) + "\n" == head + tail;
    OccursSplit(s, i, head, tail, e);
    OccursChar(s, e, tail, 0);
    assert tail[0] == if comment.Some? then '#' else '\n';
    FieldHead(s, i, ty, name, e);
    FieldTail(s, e, comment, j);
  }

  /** A rendered constant line body reads back as its constant. */
  lemma ConstantBody(s: string, i: nat, ty: TypeText, name: string, raw: string, j: nat)
    requires WellFormedType(ty) && IsIdent(name) && '\n' !in raw
    requires Occurs(s, i, RenderType(ty) + " " + name + "=" + raw + "\n")
    requires j == i + |RenderType(ty) + " " + name + "=" + raw + "\n"|
    ensures ParseFrom(s, i) == [Constant(TypeOf(ty), name, Trim(raw))] + ParseFrom(s, j)
  {
    ConstantHead(s, i, ty, name, raw, j);
    ParseSkipsWhitespace(s, j);
  }

  /** The body of a well-formed line reads back as the statements the line stands for. */
  lemma BodyRoundTrip(s: string, i: nat, l: Line, j: nat)
    requires WellFormedLine(l) && Occurs(s, i, RenderBody(l)) && j == i + |RenderBody(l)|
    ensures ParseFrom(s, i) == LineStatements(l) + ParseFrom(s, j)
  {
    match l
    case FieldLine(_, ty, name, comment) => FieldBody(s, i, ty, name, comment, j);
    case ConstantLine(_, ty, name, raw) => ConstantBody(s, i, ty, name, raw, j);
    case CommentLine(_, text) => ParseSkipsCommentLine(s, i, text, j);
    case BlankLine(_) => ParseSkipsIndent(s, i, "\n", j);
  }

  /** A well-formed line reads back as the statements it stands for, whatever follows it. */
  lemma LineRoundTrip(s: string, i: nat, l: Line, j: nat)
    requires WellFormedLine(l) && Occurs(s, i, RenderLine(l)) && j == i + |RenderLine(l)|
    ensures ParseFrom(s, i) == LineStatements(l) + ParseFrom(s, j)
  {
    var k := i + |l.indent|;
    OccursSplit(s, i, l.indent, RenderBody(l), k);
    ParseSkipsIndent(s, i, l.indent, k);
    BodyRoundTrip(s, k, l, j);
  }

  /**
   * A well-formed message definition reads back as the statements its lines
   * stand for, in order, followed by whatever the text after it holds.
   */
  lemma {:induction false} LinesRoundTrip(s: string, i: nat, ls: seq<Line>, j: nat)
    requires WellFormedLines(ls) && Occurs(s, i, RenderLines(ls)) && j == i + |RenderLines(ls)|
    ensures ParseFrom(s, i) == StatementsOf(ls) + ParseFrom(s, j)
    decreases |ls|
  {
    if ls != [] {
      var k := i + |RenderLine(ls[0])|;
      LinesSplit(s, i, ls, k, j);
      LinesRoundTrip(s, k, ls[1..], j);
      LinesStep(s, i, ls, k, j);
    } else {
      assert j == i;
      Chain([], [], StatementsOf(ls), ParseFrom(s, i), ParseFrom(s, j), ParseFrom(s, j));
    }
  }

  /** The inductive step: the first line, then the lines after it. */
  lemma LinesStep(s: string, i: nat, ls: seq<Line>, k: nat, j: nat)
    requires WellFormedLines(ls) && ls != [] && Occurs(s, i, RenderLines(ls)) && j == i + |RenderLines(ls)|
    requires k == i + |RenderLine(ls[0])| && k <= |s|
    requires ParseFrom(s, k) == StatementsOf(ls[1..]) + ParseFrom(s, j)
    ensures ParseFrom(s, i) == StatementsOf(ls) + ParseFrom(s, j)
  {
    LinesSplit(s, i, ls, k, j);
    LineRoundTrip(s, i, ls[0], k);
    Chain(LineStatements(ls[0]), StatementsOf(ls[1..]), StatementsOf(ls),
          ParseFrom(s, i), ParseFrom(s, k), ParseFrom(s, j));
  }

  /** Two readings chained: what the first reads, then what the second reads, then the rest. */
  lemma Chain(a: seq<Statement>, b: seq<Statement>, c: seq<Statement>,
              x: seq<Statement>, y: seq<Statement>, z: seq<Statement>)
    requires x == a + y && y == b + z && c == a + b
    ensures x == c + z
  {
  }

  /** The first rendered line of a definition and the rest. */
  lemma LinesSplit(s: string, i: nat, ls: seq<Line>, k: nat, j: nat)
    requires WellFormedLines(ls) && ls != [] && Occurs(s, i, RenderLines(ls)) && j == i + |RenderLines(ls)|
    requires k == i + |RenderLine(ls[0])|
    ensures WellFormedLine(ls[0]) && WellFormedLines(ls[1..])
    ensures Occurs(s, i, RenderLine(ls[0])) && Occurs(s, k, RenderLines(ls[1..]))
    ensures j == k + |RenderLines(ls[1..])|
  {
    assert WellFormedLine(ls[0]);
    OccursSplit(s, i, RenderLine(ls[0]), RenderLines(ls[1..]), k);
  }

  /** A text occurs at the start of any text it begins. */
  lemma OccursPrefix(x: string, y: string)
    ensures Occurs(x + y, 0, x)
  {
    OccursAfter([], x, y);
    assert [] + x + y == x + y;
  }

  /** A well-formed message definition at the start of a text reads back as its statements, then the rest. */
  lemma RenderedThen(ls: seq<Line>, rest: string)
    requires WellFormedLines(ls)
    ensures Parse(RenderLines(ls) + rest)
         == StatementsOf(ls) + ParseFrom(RenderLines(ls) + rest, |RenderLines(ls)|)
  {
    OccursPrefix(RenderLines(ls), rest);
    LinesRoundTrip(RenderLines(ls) + rest, 0, ls, |RenderLines(ls)|);
  }

  /** A well-formed message definition parses to the statements its lines stand for. */
  lemma RenderedParses(ls: seq<Line>)
    requires WellFormedLines(ls)
    ensures Parse(RenderLines(ls)) == StatementsOf(ls)
  {
    var s := RenderLines(ls);
    RenderedThen(ls, []);
    assert s + [] == s;
    ParseAtEnd(s);
  }

  /**
   * Parsing stops where no statement starts: text after a well-formed
   * definition that opens with neither whitespace, `#` nor an identifier
   * adds nothing.
   */
  lemma StopsAtStrayText(ls: seq<Line>, junk: string)
    requires WellFormedLines(ls)
    requires junk != [] && !IsWhitespace(junk[0]) && junk[0] != '#' && !IsIdentStart(junk[0])
    ensures Parse(RenderLines(ls) + junk) == StatementsOf(ls)
  {
    var s := RenderLines(ls) + junk;
    var n := |RenderLines(ls)|;
    RenderedThen(ls, junk);
    assert s[n] == junk[0];
    StrayTextEndsParse(s, n);
  }

  /** Whitespace after a well-formed message definition adds nothing. */
  lemma RenderedThenWhitespace(ls: seq<Line>, w: string)
    requires WellFormedLines(ls) && AllWhitespace(w)
    ensures Parse(RenderLines(ls) + w) == StatementsOf(ls)
  {
    var s := RenderLines(ls) + w;
    var n := |RenderLines(ls)|;
    RenderedThen(ls, w);
    OccursAfter(RenderLines(ls), w, []);
    assert RenderLines(ls) + w + [] == s;
    ParseSkipsIndent(s, n, w, |s|);
    ParseAtEnd(s);
  }

  /**
   * A field on an indented last line followed by stray text is still read,
   * and parsing stops at the stray text.
   */
  lemma FieldThenStrayText(ls: seq<Line>, w: string, ty: TypeText, name: string, junk: string)
    requires WellFormedLines(ls) && AllWhitespace(w) && WellFormedType(ty) && IsIdent(name)
    requires junk != [] && !IsWhitespace(junk[0]) && junk[0] != '#' && !IsIdentChar(junk[0]) && junk[0] != '='
    ensures Parse(RenderLines(ls) + (w + (RenderType(ty) + " " + name + junk)))
         == StatementsOf(ls) + [Field(TypeOf(ty), name)]
  {
    var r := RenderLines(ls);
    var f := RenderType(ty) + " " + name;
    var s := r + (w + (f + junk));
    var n := |r|;
    var m := n + |w|;
    RenderedThen(ls, w + (f + junk));
    var e := m + |f|;
    StrayPieces(r, w, f, junk, m, e);
    ParseSkipsIndent(s, n, w, m);
    FieldBeforeStray(s, m, ty, name, e);
  }

  /** Where the pieces of a text made of a prefix, whitespace, a field and stray text lie. */
  lemma StrayPieces(r: string, w: string, f: string, junk: string, m: nat, e: nat)
    requires junk != [] && !IsWhitespace(junk[0]) && junk[0] != '#' && !IsIdentChar(junk[0]) && junk[0] != '='
    requires m == |r| + |w| && e == m + |f|
    ensures Occurs(r + (w + (f + junk)), |r|, w)
    ensures Occurs(r + (w + (f + junk)), m, f)
    ensures var s := r + (w + (f + junk));
      e < |s| && !IsWhitespace(s[e]) && s[e] != '#' && !IsIdentChar(s[e]) && s[e] != '='
  {
    Regroup(r, w, f, junk);
    OccursAfter(r, w, f + junk);
    OccursAt(r + w, f, junk, m);
    assert (r + (w + (f + junk)))[e] == junk[0];
  }

  lemma Regroup(r: string, w: string, f: string, junk: string)
    ensures r + (w + (f + junk)) == r + w + (f + junk) == r + w + f + junk
  {
  }

  /** A rendered field right before stray text is the last statement read. */
  lemma FieldBeforeStray(s: string, m: nat, ty: TypeText, name: string, e: nat)
    requires WellFormedType(ty) && IsIdent(name)
    requires Occurs(s, m, RenderType(ty) + " " + name) && e == m + |RenderType(ty) + " " + name|
    requires e < |s| && !IsWhitespace(s[e]) && s[e] != '#' && !IsIdentChar(s[e]) && s[e] != '='
    ensures ParseFrom(s, m) == [Field(TypeOf(ty), name)]
  {
    FieldHead(s, m, ty, name, e);
    SkipNoWhitespace(s, e);
    StrayTextEndsParse(s, e);
  }
}
