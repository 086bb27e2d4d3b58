/** The part of the TypeScript syntax tree that the API-surface checker looks at.

    Node kinds the checker never descends into (keywords, literal types, qualified
    references, conditional types, `typeof` queries, rest and optional tuple elements)
    are all the one constructor `Leaf`.
 */
module Syntax {

  datatype Option<+T> = None | Some(value: T)

  datatype TypeNode =
    | Paren(inner: TypeNode)
    | Ref(name: string, args: seq<TypeNode>)
    | Literal(elements: seq<TypeElement>)
    | Func(params: seq<Param>, result: TypeNode)  // function and constructor types alike
    | Union(types: seq<TypeNode>)
    | Intersection(types: seq<TypeNode>)
    | Array(element: TypeNode)
    | Tuple(slots: seq<TypeNode>)                 // a named slot is represented by its type
    | Mapped(template: Option<TypeNode>)
    | Leaf

  /** `name` is `None` for a destructuring pattern. */
  datatype Param = Param(name: Option<string>, optional: bool, annotation: Option<TypeNode>)

  datatype PropertyName =
    | Plain(text: string)          // identifier, string literal or numeric literal
    | Private(text: string)        // `#text`
    | Computed(expression: string) // `[expression]`

  datatype TypeElement =
    | IndexSignature(value: TypeNode)
    | Property(key: PropertyName, optional: bool, annotation: Option<TypeNode>)
    | Method(key: PropertyName, optional: bool, params: seq<Param>, result: Option<TypeNode>)
    | OtherElement                 // call and construct signatures, accessors

  datatype ClassElement =
    | Constructor(isPrivate: bool, params: seq<Param>)
    | Field(key: PropertyName, isPrivate: bool, isStatic: bool, optional: bool, annotation: Option<TypeNode>)
    | Accessor(key: PropertyName, isPrivate: bool, isStatic: bool, annotation: Option<TypeNode>)
    | ClassMethod(key: PropertyName, isPrivate: bool, isStatic: bool, optional: bool,
                  params: seq<Param>, result: Option<TypeNode>)
    | OtherClassElement            // index signatures, static blocks, stray semicolons

  datatype Declaration =
    | Alias(body: TypeNode)
    | Interface(elements: seq<TypeElement>)
    | Class(members: seq<ClassElement>)

  datatype FunctionDeclaration = FunctionDeclaration(name: string, params: seq<Param>, result: Option<TypeNode>)

  /** One report body: its named declarations and its top-level functions, overloads included. */
  datatype Surface = Surface(declarations: map<string, Declaration>, functions: seq<FunctionDeclaration>)

  /** A bare function name, or `Owner.member` for a method or constructor. */
  datatype CallableKey = TopLevel(name: string) | Member(owner: string, member: string)

  function MemberName(key: PropertyName): Option<string> {
    match key
    case Plain(text) => Some(text)
    case Private(_) => None
    case Computed(expression) => Some("[" + expression + "]")
  }

  /** Whether a class element is invisible outside its class. */
  predicate Hidden(member: ClassElement) {
    match member
    case Constructor(isPrivate, _) => isPrivate
    case Field(key, isPrivate, _, _, _) => isPrivate || key.Private?
    case Accessor(key, isPrivate, _, _) => isPrivate || key.Private?
    case ClassMethod(key, isPrivate, _, _, _, _) => isPrivate || key.Private?
    case OtherClassElement => false
  }

  /** Whether a class element belongs to the class itself rather than to its instances. */
  predicate OnClassItself(member: ClassElement) {
    (member.Field? || member.Accessor? || member.ClassMethod?) && member.isStatic
  }

  datatype ForcedMode = AsWritten | AllOptional | AllRequired

  datatype Peeled = Peeled(node: TypeNode, mode: ForcedMode)

  /** How a wrapper reference acts on the mode; `None` when the reference is no wrapper. */
  function WrapperEffect(name: string, mode: ForcedMode): Option<ForcedMode> {
    if name == "Readonly" then Some(mode)
    else if name == "Partial" then Some(AllOptional)
    else if name == "Required" then Some(AllRequired)
    else None
  }

  /** Strips parentheses, `Readonly`, `Partial` and `Required`; the innermost mode wins. */
  function Peel(t: TypeNode, mode: ForcedMode): (p: Peeled)
    ensures p.node == t || p.node < t
    ensures !p.node.Paren?
    ensures p.node.Ref? && p.node.args != [] ==> WrapperEffect(p.node.name, AsWritten).None?
    decreases t
  {
    match t
    case Paren(inner) => Peel(inner, mode)
    case Ref(name, args) =>
      if args == [] then Peeled(t, mode)
      else (match WrapperEffect(name, mode)
            case None => Peeled(t, mode)
            case Some(next) => Peel(args[0], next))
    case _ => Peeled(t, mode)
  }

  /** The loop of `peelWrappers`. */
  method PeelWrappers(t: TypeNode, initial: ForcedMode) returns (p: Peeled)
    ensures p == Peel(t, initial)
  {
    var current, mode := t, initial;
    while true
      invariant Peel(current, mode) == Peel(t, initial)
      decreases current
    {
      if current.Paren? {
        current := current.inner;
        continue;
      }
      if current.Ref? && current.args != [] {
        var first := current.args[0];
        if current.name == "Readonly" {
          current := first;
          continue;
        }
        if current.name == "Partial" {
          current, mode := first, AllOptional;
          continue;
        }
        if current.name == "Required" {
          current, mode := first, AllRequired;
          continue;
        }
      }
      break;
    }
    p := Peeled(current, mode);
  }

  /** A member's own optionality under an enclosing wrapper mode. */
  function IsOptional(mode: ForcedMode, questionMark: bool): bool {
    match mode
    case AsWritten => questionMark
    case AllOptional => true
    case AllRequired => false
  }
}
