/**
  Compiled XPath expressions and their values.

  Numbers are IEEE-like values without rounding commitments: the arithmetic, the
  conversions between numbers and strings and the other leaf functions that play no part
  in evaluation order are parameters of the evaluation environment.
 */
module Xpath {
  import opened DocumentOrder
  import opened Documents
  import opened Axes

  datatype Num = NaN | NegInf | PosInf | Fin(r: real)

  function FromNat(n: nat): Num {
    Fin(n as real)
  }

  predicate NumEq(a: Num, b: Num) {
    !a.NaN? && a == b
  }

  predicate NumLess(a: Num, b: Num) {
    match (a, b)
    case (NaN, _) => false
    case (_, NaN) => false
    case (Fin(x), Fin(y)) => x < y
    case (NegInf, _) => !b.NegInf?
    case (_, PosInf) => !a.PosInf?
    case _ => false
  }

  predicate NumLessEq(a: Num, b: Num) {
    NumLess(a, b) || NumEq(a, b)
  }

  datatype ValueType = TBoolean | TNumber | TString | TNodeSet

  datatype CompareOp = Eq | Ne | Less | Greater | LessEq | GreaterEq
  datatype ArithOp = Add | Subtract | Multiply | Divide | Mod
  datatype NumFn = Negate | Floor | Ceiling | Round
  datatype LabelFn = LocalName | QualifiedName | NamespaceUri

  /** Operators and functions of booleans, numbers and strings, possibly of the context node. */
  datatype Fn =
    | OrFn | AndFn | NotFn | BooleanFn | TrueFn | FalseFn
    | ArithFn(aop: ArithOp) | NumericFn(nf: NumFn) | NumberFn
    | StringFn | ConcatFn | StartsWithFn | ContainsFn | SubstringBeforeFn | SubstringAfterFn
    | SubstringFn | StringLengthFn | NormalizeSpaceFn | TranslateFn | LangFn
    /** translate() by table; only the optimizer makes it */
    | TranslateTableFn(table: seq<nat>)

  /** How a predicate is applied; decided by the optimizer. */
  datatype PredTag = Default | PosInvariant | Constant | ConstantOne

  datatype Expr =
    | Call(fn: Fn, args: Args)
    | Compare(cop: CompareOp, l: Expr, r: Expr)
    | Union(l: Expr, r: Expr)
    | Filter(l: Expr, pred: Expr, tag: PredTag)
    | StringConst(text: string)
    | NumberConst(n: Num)
    | Var(t: ValueType, name: string)
    | Last
    | Position
    | Count(e: Expr)
    | Sum(e: Expr)
    | Id(e: Expr)
    | Label(lf: LabelFn, arg: Operand)
    | Step(left: Operand, axis: Axis, test: NodeTest, preds: Preds)
    | Root
    /** `@name = string`; only the optimizer makes it */
    | OptAttribute(attribute: string, r: Expr)

  /** A child pointer that may be null. */
  datatype Operand = Absent | Of(e: Expr)
  /** Further arguments, and the predicates of a step, are chained through `next`. */
  datatype Args = NoArgs | Arg(e: Expr, next: Args)
  datatype Preds = NoPreds | Pred(e: Expr, tag: PredTag, next: Preds)

  function FnType(fn: Fn): ValueType {
    match fn
    case ArithFn(_) => TNumber
    case NumericFn(_) => TNumber
    case NumberFn => TNumber
    case StringLengthFn => TNumber
    case StringFn => TString
    case ConcatFn => TString
    case SubstringBeforeFn => TString
    case SubstringAfterFn => TString
    case SubstringFn => TString
    case NormalizeSpaceFn => TString
    case TranslateFn => TString
    case TranslateTableFn(_) => TString
    case _ => TBoolean
  }

  /** The type to which a function converts its `i`-th argument. */
  function ArgType(fn: Fn, i: nat): ValueType {
    match fn
    case OrFn => TBoolean
    case AndFn => TBoolean
    case NotFn => TBoolean
    case BooleanFn => TBoolean
    case ArithFn(_) => TNumber
    case NumericFn(_) => TNumber
    case NumberFn => TNumber
    case SubstringFn => if i == 0 then TString else TNumber
    case _ => TString
  }

  function RetType(e: Expr): ValueType {
    match e
    case Call(fn, _) => FnType(fn)
    case Compare(_, _, _) => TBoolean
    case Union(_, _) => TNodeSet
    case Filter(_, _, _) => TNodeSet
    case StringConst(_) => TString
    case NumberConst(_) => TNumber
    case Var(t, _) => t
    case Last => TNumber
    case Position => TNumber
    case Count(_) => TNumber
    case Sum(_) => TNumber
    case Id(_) => TNodeSet
    case Label(_, _) => TString
    case Step(_, _, _, _) => TNodeSet
    case Root => TNodeSet
    case OptAttribute(_, _) => TBoolean
  }

  // ----- Values -----

  datatype NodeSet = NodeSet(order: Order, nodes: seq<XNode>)

  /** What the evaluator computes: node sets are sequences with a claim about their order. */
  datatype Value = VBool(b: bool) | VNum(n: Num) | VStr(s: string) | VNodes(ns: NodeSet)

  /** What an expression means: node sets are sets. */
  datatype Meaning = MBool(b: bool) | MNum(n: Num) | MStr(s: string) | MNodes(nodes: set<XNode>)

  datatype Context = Context(node: XNode, position: nat, size: nat)

  datatype Env = Env(
    doc: Forest,
    arith: (ArithOp, Num, Num) -> Num,
    numeric: (NumFn, Num) -> Num,
    toNumber: string -> Num,
    toText: Num -> string,
    nameOf: (LabelFn, XNode) -> string,
    lang: (string, XNode) -> bool,
    normalizeSpace: string -> string,
    substringBefore: (string, string) -> string,
    substringAfter: (string, string) -> string,
    substring: (string, Num, Option<Num>) -> string,
    boolVar: string -> bool,
    numVar: string -> Num,
    textVar: string -> string,
    nodesVar: string -> NodeSet
  )

  // ----- Strings -----

  /** Concatenation of the values of some text nodes. */
  function JoinValues(d: Forest, s: seq<XNode>): string {
    if s == [] then ""
    else (if s[0].Tree? && s[0].path in d then d[s[0].path].value else "") + JoinValues(d, s[1..])
  }

  /** The string-value of a node (section 5 of XPath 1.0). */
  function StringValue(d: Forest, x: XNode): string {
    if !ValidNode(d, x) then ""
    else if x.Attr? then d[x.path].attributes[x.index].value
    else
      var n := d[x.path];
      match n.kind
      case Pcdata => n.value
      case Cdata => n.value
      case Comment => n.value
      case Pi => n.value
      case DocumentNode => n.value + JoinValues(d, StepSeq(d, Descendant, TextTest, x))
      case Element => n.value + JoinValues(d, StepSeq(d, Descendant, TextTest, x))
      case _ => ""
  }

  predicate IsSubstring(s: string, p: string) {
    exists i | 0 <= i <= |s| :: p <= s[i..]
  }

  /** The index of the first occurrence of a character, or the length. */
  function IndexOf(s: string, ch: char): (i: nat)
    ensures i <= |s|
    ensures i < |s| ==> s[i] == ch
    ensures forall j :: 0 <= j < i ==> s[j] != ch
  {
    if s == [] || s[0] == ch then 0
    else
      var j := IndexOf(s[1..], ch);
      assert forall k :: 0 < k <= j ==> s[k] == s[1..][k - 1];
      1 + j
  }

  /** translate(): characters found in `from` are replaced by position, or dropped. */
  function TranslateString(s: string, from: string, to: string): string {
    if s == [] then []
    else
      var i := IndexOf(from, s[0]);
      (if i == |from| then [s[0]] else if i < |to| then [to[i]] else []) + TranslateString(s[1..], from, to)
  }

  /** Code 128 in a table drops the character; characters outside ASCII stay. */
  function TranslateByTable(s: string, table: seq<nat>): string {
    if s == [] then []
    else
      (if s[0] as nat >= |table| || s[0] as nat >= 128 then [s[0]]
       else if table[s[0] as nat] >= 128 then []
       else [table[s[0] as nat] as char]) + TranslateByTable(s[1..], table)
  }

  /** The first attribute with a name; unnamed attributes have none. */
  function FindAttribute(attributes: seq<Attribute>, name: string, i: nat := 0): (r: Option<nat>)
    requires i <= |attributes|
    ensures r.Some? ==> i <= r.value < |attributes| && attributes[r.value].name == name && name != ""
    ensures r.Some? ==> forall j :: i <= j < r.value ==> attributes[j].name != name
    ensures r.None? && name != "" ==> forall j :: i <= j < |attributes| ==> attributes[j].name != name
    decreases |attributes| - i
  {
    if i == |attributes| then None
    else if attributes[i].name != "" && attributes[i].name == name then Some(i)
    else FindAttribute(attributes, name, i + 1)
  }

  // ----- Conversions and comparisons of meanings -----

  function Nodes(m: Meaning): set<XNode> {
    if m.MNodes? then m.nodes else {}
  }

  predicate ToBool(m: Meaning) {
    match m
    case MBool(b) => b
    case MNum(n) => !NumEq(n, FromNat(0)) && !n.NaN?
    case MStr(s) => s != ""
    case MNodes(nodes) => nodes != {}
  }

  function ToText(env: Env, m: Meaning): string {
    match m
    case MBool(b) => if b then "true" else "false"
    case MNum(n) => env.toText(n)
    case MStr(s) => s
    case MNodes(nodes) => if nodes == {} then "" else StringValue(env.doc, MinOf(nodes))
  }

  function ToNum(env: Env, m: Meaning): Num {
    match m
    case MBool(b) => FromNat(if b then 1 else 0)
    case MNum(n) => n
    case _ => env.toNumber(ToText(env, m))
  }

  function NodeNumber(env: Env, x: XNode): Num {
    env.toNumber(StringValue(env.doc, x))
  }

  /** `=` (or `!=`) between values of any two types. */
  predicate EqualMeanings(env: Env, eq: bool, l: Meaning, r: Meaning) {
    if l.MNodes? && r.MNodes? then
      exists x, y | x in l.nodes && y in r.nodes :: (StringValue(env.doc, x) == StringValue(env.doc, y)) == eq
    else if l.MNodes? then EqualToNodes(env, eq, r, l.nodes)
    else if r.MNodes? then EqualToNodes(env, eq, l, r.nodes)
    else if l.MBool? || r.MBool? then (ToBool(l) == ToBool(r)) == eq
    else if l.MNum? || r.MNum? then NumEq(ToNum(env, l), ToNum(env, r)) == eq
    else (ToText(env, l) == ToText(env, r)) == eq
  }

  predicate EqualToNodes(env: Env, eq: bool, m: Meaning, nodes: set<XNode>) {
    match m
    case MBool(b) => (b == (nodes != {})) == eq
    case MNum(n) => exists y | y in nodes :: NumEq(n, NodeNumber(env, y)) == eq
    case MStr(s) => exists y | y in nodes :: (s == StringValue(env.doc, y)) == eq
    case MNodes(_) => false
  }

  predicate Related(strict: bool, a: Num, b: Num) {
    if strict then NumLess(a, b) else NumLessEq(a, b)
  }

  /** `<` (or `<=`): numbers, existentially over node sets. */
  predicate RelatedMeanings(env: Env, strict: bool, l: Meaning, r: Meaning) {
    if l.MNodes? && r.MNodes? then
      exists x, y | x in l.nodes && y in r.nodes :: Related(strict, NodeNumber(env, x), NodeNumber(env, y))
    else if r.MNodes? then exists y | y in r.nodes :: Related(strict, ToNum(env, l), NodeNumber(env, y))
    else if l.MNodes? then exists x | x in l.nodes :: Related(strict, NodeNumber(env, x), ToNum(env, r))
    else Related(strict, ToNum(env, l), ToNum(env, r))
  }

  predicate CompareMeanings(env: Env, op: CompareOp, l: Meaning, r: Meaning) {
    match op
    case Eq => EqualMeanings(env, true, l, r)
    case Ne => EqualMeanings(env, false, l, r)
    case Less => RelatedMeanings(env, true, l, r)
    case Greater => RelatedMeanings(env, true, r, l)
    case LessEq => RelatedMeanings(env, false, l, r)
    case GreaterEq => RelatedMeanings(env, false, r, l)
  }

  /** The sum of the numbers of some nodes, added from the left. */
  function SumOf(env: Env, s: seq<XNode>): Num {
    if s == [] then FromNat(0)
    else env.arith(Add, SumOf(env, s[..|s| - 1]), NodeNumber(env, s[|s| - 1]))
  }

  /** `@name` compared with a string without building a node set. */
  predicate AttributeEquals(d: Forest, x: XNode, name: string, value: string) {
    x.Tree? && x.path in d &&
    var i := FindAttribute(d[x.path].attributes, name);
    i.Some? && d[x.path].attributes[i.value].value == value && IsXpathAttribute(name)
  }

  function RootOf(x: XNode): set<XNode> {
    if x.Nothing? || x.path == [] then {} else {Tree(x.path[..1])}
  }

  /** A step along the attribute axis that names its attribute looks at one attribute only. */
  predicate OneAttribute(axis: Axis, test: NodeTest) {
    axis.AttributeAxis? && test.NameTest?
  }

  // ----- Functions of scalars -----

  function TextAt(a: seq<Meaning>, i: nat): string {
    if i < |a| && a[i].MStr? then a[i].s else ""
  }

  function NumAt(a: seq<Meaning>, i: nat): Num {
    if i < |a| && a[i].MNum? then a[i].n else NaN
  }

  predicate BoolAt(a: seq<Meaning>, i: nat) {
    i < |a| && a[i].MBool? && a[i].b
  }

  /** An argument in the type the function wants. */
  function Convert(env: Env, t: ValueType, m: Meaning): Meaning {
    match t
    case TBoolean => MBool(ToBool(m))
    case TNumber => MNum(ToNum(env, m))
    case TString => MStr(ToText(env, m))
    case TNodeSet => m
  }

  /** Some functions take the string-value of the context node when they have no argument. */
  function TextOrNode(env: Env, node: XNode, a: seq<Meaning>): string {
    if a == [] then StringValue(env.doc, node) else TextAt(a, 0)
  }

  function Apply(env: Env, fn: Fn, node: XNode, a: seq<Meaning>): Meaning {
    match fn
    case OrFn => MBool(BoolAt(a, 0) || BoolAt(a, 1))
    case AndFn => MBool(BoolAt(a, 0) && BoolAt(a, 1))
    case NotFn => MBool(!BoolAt(a, 0))
    case BooleanFn => MBool(BoolAt(a, 0))
    case TrueFn => MBool(true)
    case FalseFn => MBool(false)
    case ArithFn(op) => MNum(env.arith(op, NumAt(a, 0), NumAt(a, 1)))
    case NumericFn(f) => MNum(env.numeric(f, NumAt(a, 0)))
    case NumberFn => MNum(if a == [] then NodeNumber(env, node) else NumAt(a, 0))
    case StringFn => MStr(TextOrNode(env, node, a))
    case ConcatFn => MStr(ConcatAll(a))
    case StartsWithFn => MBool(TextAt(a, 1) <= TextAt(a, 0))
    case ContainsFn => MBool(IsSubstring(TextAt(a, 0), TextAt(a, 1)))
    case SubstringBeforeFn => MStr(env.substringBefore(TextAt(a, 0), TextAt(a, 1)))
    case SubstringAfterFn => MStr(env.substringAfter(TextAt(a, 0), TextAt(a, 1)))
    case SubstringFn => MStr(env.substring(TextAt(a, 0), NumAt(a, 1), if |a| > 2 then Some(NumAt(a, 2)) else None))
    case StringLengthFn => MNum(FromNat(|TextOrNode(env, node, a)|))
    case NormalizeSpaceFn => MStr(env.normalizeSpace(TextOrNode(env, node, a)))
    case TranslateFn => MStr(TranslateString(TextAt(a, 0), TextAt(a, 1), TextAt(a, 2)))
    case LangFn => MBool(env.lang(TextAt(a, 0), node))
    case TranslateTableFn(table) => MStr(TranslateByTable(TextAt(a, 0), table))
  }

  function ConcatAll(a: seq<Meaning>): string {
    if a == [] then "" else TextAt(a, 0) + ConcatAll(a[1..])
  }
}
