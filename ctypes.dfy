/** The ctypes backend (`_nanomsg_ctypes`): the C-declaration parser that
    builds the foreign-function wrappers from a header text, the symbol
    enumeration loop, the poll-array round trip, the writable-buffer guards and
    the message objects over library-allocated memory. */
module NanomsgCtypes {
  import opened Common
  import opened PyStr
  import opened Native

  // ---------------------------------------------------------------------------
  // C types and the type table
  // ---------------------------------------------------------------------------

  /** The ctypes types a declaration can resolve to; `Void` is Python's `None`
      (a `void` result). */
  datatype CType = Void | CharP | CInt | VoidP | SizeT | Pointer(target: CType)

  /** The ctypes pointer type over `t`; a pointer to `None` is `c_void_p`. */
  function PointerTo(t: CType): (p: CType)
    ensures p != Void
    ensures t == Void ==> p == VoidP
    ensures t != Void ==> p.Pointer? && p.target == t
  {
    if t == Void then VoidP else Pointer(t)
  }

  /** The table of C type spellings the parser knows (`None` for an unknown one). */
  function Types(t: string): (r: Option<CType>)
    ensures r.Some? ==> (r.value == Void <==> t == "void")
    ensures r.Some? ==> t != [] && (t[|t| - 1] == '*' <==> r.value !in {Void, CInt, SizeT})
  {
    match t
    case "void" => Some(Void)
    case "char *" => Some(CharP)
    case "const char *" => Some(CharP)
    case "int" => Some(CInt)
    case "int *" => Some(Pointer(CInt))
    case "void *" => Some(VoidP)
    case "size_t" => Some(SizeT)
    case "size_t *" => Some(Pointer(SizeT))
    case "struct nn_msghdr *" => Some(VoidP)
    case "struct nn_pollfd *" => Some(VoidP)
    case _ => None
  }

  /** No table spelling has 7 characters, and the only one with 8 starts with `s`. */
  lemma TypesShape(t: string)
    ensures Types(t).Some? ==> |t| != 7 && (|t| == 8 ==> t[0] == 's')
  {
  }

  /** `type_lookup(type_def)`: drop every `const `, then look the spelling up
      directly, or derive one pointer level from a table entry; anything else
      is a `KeyError` naming the original spelling. */
  function TypeLookup(typeDef: string): (r: Result<CType>)
    ensures r.Err? ==> r.error == UnknownCType(typeDef)
  {
    var t := RemoveAll(typeDef, "const ");
    if Types(t).Some? then Ok(Types(t).value)
    else if |t| > 0 && t[|t| - 1] == '*' && Types(t[..|t| - 1]).Some? then
      Ok(PointerTo(Types(t[..|t| - 1]).value))
    else Err(UnknownCType(typeDef))
  }

  /** A leading `const ` never changes what a spelling resolves to. */
  lemma TypeLookupIgnoresConst(t: string)
    ensures TypeLookup("const " + t).Ok? <==> TypeLookup(t).Ok?
    ensures TypeLookup(t).Ok? ==> TypeLookup("const " + t) == TypeLookup(t)
  {
    var s := "const " + t;
    assert s[..6] == "const " && s[6..] == t;
    assert RemoveAll(s, "const ") == RemoveAll(t, "const ");
  }

  /** A spelling resolves exactly when, once every `const ` is removed, it is
      a table key or a table key followed by one `*`. */
  lemma TypeLookupSpec(t: string)
    ensures var u := RemoveAll(t, "const ");
      TypeLookup(t).Ok? <==> Types(u).Some? || exists k :: Types(k).Some? && u == k + "*"
  {
    var u := RemoveAll(t, "const ");
    if exists k :: Types(k).Some? && u == k + "*" {
      var k :| Types(k).Some? && u == k + "*";
      assert u[..|u| - 1] == k;
    }
    if TypeLookup(t).Ok? && Types(u).None? {
      assert u == u[..|u| - 1] + "*";
    }
  }

  /** What a spelling resolves to: a table key (once `const ` is removed) to
      its entry; a key followed by `*`, itself no key, to a pointer to the
      key's entry. */
  lemma TypeLookupValue(t: string, k: string)
    ensures var u := RemoveAll(t, "const ");
      && (Types(u).Some? ==> TypeLookup(t) == Ok(Types(u).value))
      && (Types(u).None? && Types(k).Some? && u == k + "*" ==> TypeLookup(t) == Ok(PointerTo(Types(k).value)))
  {
    var u := RemoveAll(t, "const ");
    if Types(u).None? && u == k + "*" {
      assert u[..|u| - 1] == k;
    }
  }

  /** A table spelling without `const ` resolves to its own entry. */
  lemma TypeLookupDirect(t: string)
    requires Types(t).Some? && !Contains(t, "const ")
    ensures TypeLookup(t) == Ok(Types(t).value)
  {
    RemoveAllAbsent(t, "const ");
  }

  /** One pointer level is derived from any table entry. */
  lemma TypeLookupDerived(t: string)
    requires Types(t).Some? && Types(t + "*").None? && !Contains(t + "*", "const ")
    ensures TypeLookup(t + "*") == Ok(PointerTo(Types(t).value))
  {
    RemoveAllAbsent(t + "*", "const ");
    assert (t + "*")[..|t|] == t;
  }

  /** A spelling without an `o` holds no `const `. */
  lemma NoConst(t: string)
    requires 'o' !in t
    ensures RemoveAll(t, "const ") == t
  {
    if Contains(t, "const ") {
      ContainsChar(t, "const ", 1);
    }
    RemoveAllAbsent(t, "const ");
  }

  /** `char **` is derived from the table entry `char *`. */
  lemma TypeLookupCharPointerPointer()
    ensures TypeLookup("char **") == Ok(Pointer(CharP))
  {
    NoConst("char **");
    TypesShape("char **");
    assert "char **"[..6] == "char *";
  }

  /** Only one level is derived: `char ***` is unknown although `char *` is known. */
  lemma TypeLookupOneLevelOnly()
    ensures TypeLookup("char ***") == Err(UnknownCType("char ***"))
  {
    NoConst("char ***");
    TypesShape("char ***");
    TypesShape("char **");
    assert "char ***"[..7] == "char **";
  }

  // ---------------------------------------------------------------------------
  // Declaration parsing
  // ---------------------------------------------------------------------------

  /** `move_pointer_and_strip(type_def, name)`: every `*` up to the last one in
      the name moves to the end of the type, then both are stripped. */
  function MovePointerAndStrip(typeDef: string, name: string): (r: (string, string))
    ensures '*' !in r.1
  {
    if '*' in name then
      var k := LastIndex(name, '*');
      MovedPieces(name, k);
      StripAbsent(name[k + 1..], '*');
      (Strip(typeDef + " " + name[..k + 1]), Strip(name[k + 1..]))
    else
      StripAbsent(name, '*');
      (Strip(typeDef), Strip(name))
  }

  /** A name without `*` moves nothing: both parts are only stripped. */
  lemma MovePointerWithoutStar(typeDef: string, name: string)
    requires '*' !in name
    ensures MovePointerAndStrip(typeDef, name) == (Strip(typeDef), Strip(name))
  {
  }

  /** A name with a `*` leaves a type ending in `*`. */
  lemma MovePointerEndsType(typeDef: string, name: string)
    requires '*' in name
    ensures var t := MovePointerAndStrip(typeDef, name).0;
      t != [] && t[|t| - 1] == '*'
  {
    var k := LastIndex(name, '*');
    MovedResult(typeDef, name, k);
    MovedPieces(name, k);
    StarEnds(typeDef + " " + name[..k + 1]);
  }

  /** No `*` is lost or gained: the stars of the name move to the type. */
  lemma MovePointerKeepsStars(typeDef: string, name: string)
    ensures var (t, n) := MovePointerAndStrip(typeDef, name);
      Count(t, '*') + Count(n, '*') == Count(typeDef, '*') + Count(name, '*')
  {
    if '*' in name {
      var k := LastIndex(name, '*');
      MovedResult(typeDef, name, k);
      MovedPieces(name, k);
      MovedSplit(name, k);
      StarCountMoved(typeDef, name[..k + 1], name[k + 1..]);
    } else {
      CountZero(name, '*');
      StripKeepsCount(name, '*');
      StripKeepsCount(typeDef, '*');
      CountZero(Strip(name), '*');
    }
  }

  lemma MovedSplit(name: string, k: nat)
    requires k < |name|
    ensures name == name[..k + 1] + name[k + 1..]
  {
  }
  lemma MovedResult(typeDef: string, name: string, k: nat)
    requires '*' in name && k == LastIndex(name, '*')
    ensures MovePointerAndStrip(typeDef, name) == (Strip(typeDef + " " + name[..k + 1]), Strip(name[k + 1..]))
  {
  }
  lemma MovedPieces(name: string, k: nat)
    requires '*' in name && k == LastIndex(name, '*')
    ensures name[..k + 1] != [] && name[..k + 1][k] == '*' && '*' !in name[k + 1..]
  {
    LastIndexLast(name, '*');
    var tail := name[k + 1..];
    forall j | 0 <= j < |tail|
      ensures tail[j] != '*'
    {
      assert tail[j] == name[k + 1 + j];
    }
  }

  lemma StarEnds(full: string)
    requires full != [] && full[|full| - 1] == '*'
    ensures Strip(full) != [] && Strip(full)[|Strip(full)| - 1] == '*'
  {
    StripEndsWith(full);
  }

  lemma StarCountMoved(typeDef: string, head: string, tail: string)
    requires '*' !in tail
    ensures Count(Strip(typeDef + " " + head), '*') + Count(Strip(tail), '*')
         == Count(typeDef, '*') + Count(head + tail, '*')
  {
    var spaced := typeDef + " ";
    var full := spaced + head;
    CountZero(tail, '*');
    CountConcat(head, tail, '*');
    StripKeepsCount(tail, '*');
    CountConcat(spaced, head, '*');
    CountConcat(typeDef, " ", '*');
    CountZero(" ", '*');
    StripKeepsCount(full, '*');
  }

  /** Stripping a text that ends in a non-space character keeps that last character. */
  lemma StripEndsWith(s: string)
    requires s != [] && !IsSpace(s[|s| - 1])
    ensures Strip(s) != [] && Strip(s)[|Strip(s)| - 1] == s[|s| - 1]
  {
    assert RightEnd(s, |s|) == |s|;
    LeftEndSpec(s, 0, |s|);
  }

  /** A parameter: its C type spelling and its name. */
  datatype Param = Param(typeDef: string, name: string)

  /** A wrapped C function: its name, result type, argument types and the
      ctypes `paramflags` (direction flag and name per parameter). */
  datatype FuncDecl = FuncDecl(name: string, restype: CType, argtypes: seq<CType>,
                               paramflags: seq<(int, string)>)

  /** `move_pointer_and_strip(*param.rsplit(' ', 1))`: a piece without a space
      unpacks into too few arguments. */
  function ParseParam(piece: string, text: string): (r: Result<Param>)
    ensures r.Err? ==> r.error == MalformedDeclaration(text)
  {
    match RSplitOnce(piece, ' ')
    case None => Err(MalformedDeclaration(text))
    case Some((t, n)) =>
      var (t', n') := MovePointerAndStrip(t, n);
      Ok(Param(t', n'))
  }

  /** A parameter piece that is exactly `void` stands for no parameters. */
  predicate IsVoid(piece: string) {
    piece == "void"
  }

  /** The loop over `params.split(',')`: a piece that is exactly `void` is
      skipped, every other piece becomes a parameter, in order. */
  function ParseParams(pieces: seq<string>, text: string): (r: Result<seq<Param>>)
    ensures r.Ok? ==> |r.value| <= |pieces|
    ensures r.Err? ==> r.error == MalformedDeclaration(text)
  {
    if pieces == [] then Ok([])
    else if IsVoid(pieces[0]) then ParseParams(pieces[1..], text)
    else
      match ParseParam(pieces[0], text)
      case Err(e) => Err(e)
      case Ok(p) =>
        match ParseParams(pieces[1..], text)
        case Err(e) => Err(e)
        case Ok(ps) => Ok([p] + ps)
  }

  /** Only `void` pieces are dropped: without them every piece becomes a parameter. */
  lemma {:induction false} ParseParamsNoVoid(pieces: seq<string>, text: string)
    requires forall i :: 0 <= i < |pieces| ==> !IsVoid(pieces[i])
    requires ParseParams(pieces, text).Ok?
    ensures |ParseParams(pieces, text).value| == |pieces|
  {
    if pieces != [] {
      ParseParamsNoVoid(pieces[1..], text);
    }
  }

  /** The pieces that are not `void`, in order. */
  function NonVoid(pieces: seq<string>): (kept: seq<string>)
    ensures |kept| <= |pieces|
  {
    if pieces == [] then []
    else (if IsVoid(pieces[0]) then [] else [pieces[0]]) + NonVoid(pieces[1..])
  }

  /** Without `void` pieces, every piece is kept. */
  lemma {:induction false} NonVoidAll(pieces: seq<string>)
    requires forall i :: 0 <= i < |pieces| ==> !IsVoid(pieces[i])
    ensures NonVoid(pieces) == pieces
  {
    if pieces != [] {
      NonVoidAll(pieces[1..]);
      assert pieces == [pieces[0]] + pieces[1..];
    }
  }

  /** Every piece of `kept` parses as a parameter. */
  predicate AllParse(kept: seq<string>, text: string) {
    forall i :: 0 <= i < |kept| ==> ParseParam(kept[i], text).Ok?
  }

  lemma AllParseCons(p: string, rest: seq<string>, text: string)
    ensures AllParse([p] + rest, text) <==> ParseParam(p, text).Ok? && AllParse(rest, text)
  {
    var kept := [p] + rest;
    assert kept[0] == p;
    assert forall i :: 0 <= i < |rest| ==> kept[i + 1] == rest[i];
  }

  /** One step of the parameter loop: a `void` piece is skipped, any other
      piece is parsed and put in front of the rest. */
  lemma ParseParamsStep(pieces: seq<string>, text: string)
    requires pieces != []
    ensures IsVoid(pieces[0]) ==>
      ParseParams(pieces, text) == ParseParams(pieces[1..], text) && NonVoid(pieces) == NonVoid(pieces[1..])
    ensures !IsVoid(pieces[0]) ==> NonVoid(pieces) == [pieces[0]] + NonVoid(pieces[1..])
    ensures !IsVoid(pieces[0]) ==>
      (ParseParams(pieces, text).Ok? <==> ParseParam(pieces[0], text).Ok? && ParseParams(pieces[1..], text).Ok?)
    ensures !IsVoid(pieces[0]) && ParseParams(pieces, text).Ok? ==>
      ParseParams(pieces, text).value == [ParseParam(pieces[0], text).value] + ParseParams(pieces[1..], text).value
  {
  }

  /** The parameter loop succeeds exactly when every piece other than `void`
      parses. */
  lemma {:induction false} ParseParamsOk(pieces: seq<string>, text: string)
    ensures ParseParams(pieces, text).Ok? <==> AllParse(NonVoid(pieces), text)
  {
    if pieces != [] {
      ParseParamsStep(pieces, text);
      ParseParamsOk(pieces[1..], text);
      if !IsVoid(pieces[0]) {
        AllParseCons(pieces[0], NonVoid(pieces[1..]), text);
      }
    }
  }

  /** `params` are, in order, the parameters the pieces of `kept` parse to. */
  predicate ParsedFrom(params: seq<Param>, kept: seq<string>, text: string) {
    |params| == |kept| && forall i :: 0 <= i < |kept| ==>
      ParseParam(kept[i], text).Ok? && params[i] == ParseParam(kept[i], text).value
  }

  lemma ParsedFromCons(q: Param, params: seq<Param>, p: string, kept: seq<string>, text: string)
    requires ParseParam(p, text) == Ok(q) && ParsedFrom(params, kept, text)
    ensures ParsedFrom([q] + params, [p] + kept, text)
  {
    var ps := [q] + params;
    var ks := [p] + kept;
    forall i | 0 <= i < |ks|
      ensures ParseParam(ks[i], text).Ok? && ps[i] == ParseParam(ks[i], text).value
    {
      ConsAt(q, params, p, kept, i);
    }
  }

  lemma ConsAt(q: Param, params: seq<Param>, p: string, kept: seq<string>, i: nat)
    requires |params| == |kept| && i <= |kept|
    ensures ([p] + kept)[i] == (if i == 0 then p else kept[i - 1])
    ensures ([q] + params)[i] == (if i == 0 then q else params[i - 1])
  {
  }

  /** On success the loop yields, in order, the parameter of each piece other
      than `void`. */
  lemma {:induction false} ParseParamsValues(pieces: seq<string>, text: string)
    requires ParseParams(pieces, text).Ok?
    ensures ParsedFrom(ParseParams(pieces, text).value, NonVoid(pieces), text)
  {
    if pieces != [] {
      ParseParamsStep(pieces, text);
      ParseParamsValues(pieces[1..], text);
      if !IsVoid(pieces[0]) {
        ParsedFromCons(ParseParam(pieces[0], text).value, ParseParams(pieces[1..], text).value,
                       pieces[0], NonVoid(pieces[1..]), text);
      }
    }
  }

  /** The argument types, looked up left to right; the first unknown one raises. */
  function ResolveTypes(params: seq<Param>): (r: Result<seq<CType>>)
    ensures r.Ok? ==> |r.value| == |params|
    ensures r.Err? ==> r.error.UnknownCType?
  {
    if params == [] then Ok([])
    else
      match TypeLookup(params[0].typeDef)
      case Err(e) => Err(e)
      case Ok(t) =>
        match ResolveTypes(params[1..])
        case Err(e) => Err(e)
        case Ok(ts) => Ok([t] + ts)
  }

  /** Each resolved argument type is its parameter's lookup; a failure is the
      first parameter whose lookup fails. */
  lemma {:induction false} ResolveTypesSpec(params: seq<Param>)
    ensures var r := ResolveTypes(params);
      && (r.Ok? ==> forall i :: 0 <= i < |params| ==> TypeLookup(params[i].typeDef) == Ok(r.value[i]))
      && (r.Err? ==> exists i :: 0 <= i < |params| && TypeLookup(params[i].typeDef) == Err(r.error)
                       && forall j :: 0 <= j < i ==> TypeLookup(params[j].typeDef).Ok?)
  {
    if params != [] {
      ResolveTypesSpec(params[1..]);
      var r := ResolveTypes(params);
      if r.Ok? {
        forall i | 1 <= i < |params|
          ensures TypeLookup(params[i].typeDef) == Ok(r.value[i])
        {
          assert params[i] == params[1..][i - 1];
        }
      } else if TypeLookup(params[0].typeDef).Ok? {
        var i :| 0 <= i < |params[1..]| && TypeLookup(params[1..][i].typeDef) == Err(r.error)
          && forall j :: 0 <= j < i ==> TypeLookup(params[1..][j].typeDef).Ok?;
        assert params[i + 1] == params[1..][i];
        forall j | 1 <= j < i + 1
          ensures TypeLookup(params[j].typeDef).Ok?
        {
          assert params[j] == params[1..][j - 1];
        }
      }
    }
  }

  /** Direction flag per parameter: 2 (output) when the type holds `**`, else 1 (input). */
  function ParamFlags(params: seq<Param>): (flags: seq<(int, string)>)
    ensures |flags| == |params|
  {
    seq(|params|, i requires 0 <= i < |params| =>
      (if Contains(params[i].typeDef, "**") then 2 else 1, params[i].name))
  }

  /** Every flag carries its parameter's name, is 1 or 2, and is 2 exactly
      when the type holds `**`. */
  lemma ParamFlagsSpec(params: seq<Param>)
    ensures forall i :: 0 <= i < |params| ==>
      && ParamFlags(params)[i].1 == params[i].name
      && (ParamFlags(params)[i].0 == 1 || ParamFlags(params)[i].0 == 2)
      && (ParamFlags(params)[i].0 == 2 <==> Contains(params[i].typeDef, "**"))
  {
  }

  /** The declaration split into the result type, the name and the parameter
      text: the text before the first `(` holds the type and the name, the
      parameters run up to the last `)`. A missing `(`, `)` or space fails
      the unpacking. */
  function SplitDecl(text: string): (r: Result<(string, string, string)>)
    ensures r.Err? ==> r.error == MalformedDeclaration(text)
  {
    match SplitOnce(text, '(')
    case None => Err(MalformedDeclaration(text))
    case Some((before, after)) =>
      match RSplitOnce(Strip(after), ')')
      case None => Err(MalformedDeclaration(text))
      case Some((params, _)) =>
        match RSplitOnce(Strip(before), ' ')
        case None => Err(MalformedDeclaration(text))
        case Some((t, n)) =>
          var (rtnType, name) := MovePointerAndStrip(t, n);
          Ok((rtnType, name, params))
  }

  /** `_c_func_wrapper_factory(cdecl_text)`: split the declaration, parse the
      comma-separated parameters, then resolve the result type and the
      argument types, in that order. */
  function ParseDecl(text: string): (r: Result<FuncDecl>)
    ensures r.Err? ==> r.error == MalformedDeclaration(text) || r.error.UnknownCType?
  {
    match SplitDecl(text)
    case Err(e) => Err(e)
    case Ok((rtnType, name, params)) =>
      match ParseParams(Split(params, ','), text)
      case Err(e) => Err(e)
      case Ok(specs) =>
        match TypeLookup(rtnType)
        case Err(e) => Err(e)
        case Ok(restype) =>
          match ResolveTypes(specs)
          case Err(e) => Err(e)
          case Ok(argtypes) => Ok(FuncDecl(name, restype, argtypes, ParamFlags(specs)))
  }

  /** The split-off name holds no `*`: every `*` went to the result type. */
  lemma SplitDeclNameFree(text: string)
    ensures SplitDecl(text).Ok? ==> '*' !in SplitDecl(text).value.1
  {
    if SplitDecl(text).Ok? {
      var before := SplitOnce(text, '(').value.0;
      var (t, n) := RSplitOnce(Strip(before), ' ').value;
      assert '*' !in MovePointerAndStrip(t, n).1;
    }
  }

  /** A wrapper's name holds no `*`, and it has one direction flag (1 or 2)
      per argument type. */
  lemma ParseDeclShape(text: string)
    ensures var r := ParseDecl(text);
      r.Ok? ==> && '*' !in r.value.name
                && |r.value.argtypes| == |r.value.paramflags|
                && forall i :: 0 <= i < |r.value.paramflags| ==>
                     r.value.paramflags[i].0 == 1 || r.value.paramflags[i].0 == 2
  {
    var r := ParseDecl(text);
    if r.Ok? {
      SplitDeclNameFree(text);
      var specs := ParseParams(Split(SplitDecl(text).value.2, ','), text).value;
      assert r.value.paramflags == ParamFlags(specs);
      ParamFlagsSpec(specs);
    }
  }

  /** A declaration without parameters: a `void` parameter list yields none. */
  lemma ParseVoidParams(text: string)
    ensures ParseParams(Split("void", ','), text) == Ok([])
  {
    assert ',' !in "void";
    assert Split("void", ',') == ["void"];
  }

  /** A parameter written `<type> <name>`, with a name free of spaces and `*`,
      parses back to that type and name. */
  lemma ParseParamFormatted(typ: string, name: string, text: string)
    requires Trimmed(typ) && Trimmed(name) && ' ' !in name && '*' !in name
    ensures ParseParam(typ + " " + name, text) == Ok(Param(typ, name))
  {
    HeadSplits(typ, name, typ + " " + name);
  }

  /** A parameter list of one formatted parameter yields exactly that parameter. */
  lemma ParseOneParam(typ: string, name: string, text: string)
    requires Trimmed(typ) && Trimmed(name) && ' ' !in name && '*' !in name
    requires ',' !in typ && ',' !in name
    ensures ParseParams(Split(typ + " " + name, ','), text) == Ok([Param(typ, name)])
  {
    var piece := typ + " " + name;
    SpacedNoComma(typ, name);
    SplitWithoutSep(piece, ',');
    SpacedNotVoid(typ, name);
    ParseParamFormatted(typ, name, text);
    ParseParamsSingle(piece, text);
  }

  lemma SpacedNoComma(typ: string, name: string)
    requires ',' !in typ && ',' !in name
    ensures ',' !in typ + " " + name
  {
    assert ',' !in " ";
  }

  lemma SpacedNotVoid(typ: string, name: string)
    ensures !IsVoid(typ + " " + name)
  {
    var piece := typ + " " + name;
    assert piece[|typ|] == ' ';
  }

  /** A text without the separator splits into itself alone. */
  lemma SplitWithoutSep(s: string, sep: char)
    requires sep !in s
    ensures Split(s, sep) == [s]
  {
  }

  /** A single piece that is not `void` yields exactly its own parameter. */
  lemma ParseParamsSingle(piece: string, text: string)
    requires !IsVoid(piece) && ParseParam(piece, text).Ok?
    ensures ParseParams([piece], text) == Ok([ParseParam(piece, text).value])
  {
    var none: seq<string> := [];
    assert [piece][1..] == none;
    assert ParseParams(none, text) == Ok([]);
    var q := ParseParam(piece, text).value;
    assert [q] + [] == [q];
  }

  lemma HeadSplits(rtnType: string, name: string, head: string)
    requires Trimmed(rtnType) && Trimmed(name) && ' ' !in name && '*' !in name
    requires head == rtnType + " " + name
    ensures RSplitOnce(head, ' ') == Some((rtnType, name))
    ensures MovePointerAndStrip(rtnType, name) == (rtnType, name)
  {
    assert head[..|rtnType|] == rtnType && head[|rtnType|] == ' ' && head[|rtnType| + 1..] == name;
    RSplitOnceAt(head, ' ', |rtnType|);
    StripUnchanged(rtnType);
    StripUnchanged(name);
  }

  // ---------------------------------------------------------------------------
  // The header's declaration layout
  // ---------------------------------------------------------------------------

  /** A declarator as the header writes it: a base type, the `*`s of a
      pointer written against the name, and the name (`int s`,
      `void *optval`, `const char *nn_strerror`). */
  datatype Declarator = Declarator(base: string, stars: string, name: string)

  /** `<base> <stars><name>`. */
  function DeclaratorText(d: Declarator): string {
    d.base + " " + d.stars + d.name
  }

  /** The type spelling the parser gives a declarator: the base, followed by
      a space and the stars when there are any (`void *`). */
  function DeclaratorType(d: Declarator): string {
    if d.stars == [] then d.base else d.base + " " + d.stars
  }

  /** What the header's declarators have in common: a base type without
      outer whitespace or `*`; nothing but `*`s between it and the name; a
      non-empty name without whitespace or `*`; and no `,` or `(` anywhere. */
  predicate WellFormed(d: Declarator) {
    && Trimmed(d.base) && '*' !in d.base && ',' !in d.base && '(' !in d.base
    && (forall i :: 0 <= i < |d.stars| ==> d.stars[i] == '*')
    && d.name != [] && (forall i :: 0 <= i < |d.name| ==> !IsSpace(d.name[i]))
    && '*' !in d.name && ',' !in d.name && '(' !in d.name
  }

  /** The pieces `split(',')` cuts from a `, `-separated parameter list:
      every piece after the first starts with a space. */
  function ParamPieces(ps: seq<Declarator>): (pieces: seq<string>)
    ensures |pieces| == |ps|
  {
    seq(|ps|, i requires 0 <= i < |ps| => (if i == 0 then "" else " ") + DeclaratorText(ps[i]))
  }

  /** A parameter list as the header writes it: `void` for none, otherwise
      the declarators separated by `, `. */
  function ParamList(ps: seq<Declarator>): string {
    if ps == [] then "void" else Join(ParamPieces(ps), ',')
  }

  /** A header line: ` <result declarator><gap>(<parameters>);`, where the gap
      before the `(` is one space or none (` nn_poll(`). */
  function HeaderLine(result: Declarator, gap: string, ps: seq<Declarator>): string {
    " " + DeclaratorText(result) + gap + "(" + (ParamList(ps) + ");")
  }

  /** The last space of a declarator's text separates the base type from the
      stars and the name. */
  lemma DeclaratorSplits(lead: string, d: Declarator)
    requires WellFormed(d) && (lead == "" || lead == " ")
    ensures RSplitOnce(lead + DeclaratorText(d), ' ') == Some((lead + d.base, d.stars + d.name))
  {
    var s := lead + DeclaratorText(d);
    var i := |lead| + |d.base|;
    assert s == (lead + d.base) + " " + (d.stars + d.name);
    forall k | i < k < |s|
      ensures s[k] != ' '
    {
      if k < i + 1 + |d.stars| {
        assert s[k] == d.stars[k - i - 1];
      } else {
        assert s[k] == d.name[k - i - 1 - |d.stars|];
      }
    }
    assert s[..i] == lead + d.base && s[i] == ' ' && s[i + 1..] == d.stars + d.name;
    RSplitOnceAt(s, ' ', i);
  }

  /** `move_pointer_and_strip` puts a declarator's stars on its type. */
  lemma DeclaratorMoves(lead: string, d: Declarator)
    requires WellFormed(d) && (lead == "" || lead == " ")
    ensures MovePointerAndStrip(lead + d.base, d.stars + d.name) == (DeclaratorType(d), d.name)
  {
    StripUnchanged(d.name);
    if d.stars == [] {
      assert d.stars + d.name == d.name;
      MovePointerWithoutStar(lead + d.base, d.name);
      LeadStrips(lead, d.base);
    } else {
      StarsMove(lead, d);
    }
  }

  lemma LeadStrips(lead: string, base: string)
    requires Trimmed(base) && (lead == "" || lead == " ")
    ensures Strip(lead + base) == base
  {
    var t := lead + base;
    assert t[|lead|..] == base;
    StripBetween(t, |lead|, |t|);
  }

  lemma StarsMove(lead: string, d: Declarator)
    requires WellFormed(d) && (lead == "" || lead == " ") && d.stars != []
    ensures MovePointerAndStrip(lead + d.base, d.stars + d.name) == (d.base + " " + d.stars, d.name)
  {
    var n := d.stars + d.name;
    var k := |d.stars| - 1;
    assert n[k] == '*';
    forall j | k < j < |n|
      ensures n[j] != '*'
    {
      assert n[j] == d.name[j - |d.stars|];
    }
    LastIndexAt(n, '*', k);
    assert n[..k + 1] == d.stars && n[k + 1..] == d.name;
    MovedResult(lead + d.base, n, k);
    var t := (lead + d.base) + " " + d.stars;
    TypeStrips(lead, d.base, d.stars);
    assert Strip(t) == d.base + " " + d.stars;
    StripUnchanged(d.name);
  }

  lemma TypeStrips(lead: string, base: string, stars: string)
    requires Trimmed(base) && (lead == "" || lead == " ") && stars != []
    requires forall i :: 0 <= i < |stars| ==> stars[i] == '*'
    ensures Strip((lead + base) + " " + stars) == base + " " + stars
  {
    var t := (lead + base) + " " + stars;
    assert t[|lead|..] == base + " " + stars;
    assert t[|lead|] == base[0];
    assert t[|t| - 1] == stars[|stars| - 1] == '*';
    forall k | 0 <= k < |lead|
      ensures IsSpace(t[k])
    {
      assert t[k] == lead[k] == ' ';
    }
    StripBetween(t, |lead|, |t|);
  }


  /** A declarator written in a parameter list parses back to its type and name. */
  lemma ParseDeclarator(lead: string, d: Declarator, text: string)
    requires WellFormed(d) && (lead == "" || lead == " ")
    ensures ParseParam(lead + DeclaratorText(d), text) == Ok(Param(DeclaratorType(d), d.name))
  {
    DeclaratorSplits(lead, d);
    DeclaratorMoves(lead, d);
  }

  /** The parameters a list of declarators stands for. */
  function Params(ps: seq<Declarator>): (params: seq<Param>)
    ensures |params| == |ps|
  {
    seq(|ps|, i requires 0 <= i < |ps| => Param(DeclaratorType(ps[i]), ps[i].name))
  }

  /** The header's parameter lists parse to exactly their declarators, in order. */
  lemma ParseParamList(ps: seq<Declarator>, text: string)
    requires forall i :: 0 <= i < |ps| ==> WellFormed(ps[i])
    ensures ParseParams(Split(ParamList(ps), ','), text) == Ok(Params(ps))
  {
    if ps == [] {
      ParseVoidParams(text);
    } else {
      var pieces := ParamPieces(ps);
      var params := Params(ps);
      forall i | 0 <= i < |pieces|
        ensures ',' !in pieces[i] && !IsVoid(pieces[i])
        ensures ParseParam(pieces[i], text) == Ok(params[i])
      {
        PieceFacts(ps[i], if i == 0 then "" else " ", text);
      }
      SplitJoin(pieces, ',');
      ParseParamsEach(pieces, params, text);
    }
  }

  /** Pieces none of which is `void`, each parsing to its parameter, parse to
      those parameters in order. */
  lemma {:induction false} ParseParamsEach(pieces: seq<string>, params: seq<Param>, text: string)
    requires |params| == |pieces|
    requires forall i :: 0 <= i < |pieces| ==> !IsVoid(pieces[i]) && ParseParam(pieces[i], text) == Ok(params[i])
    ensures ParseParams(pieces, text) == Ok(params)
  {
    if pieces != [] {
      ParseParamsEach(pieces[1..], params[1..], text);
      assert params == [params[0]] + params[1..];
    }
  }

  lemma PieceFacts(d: Declarator, lead: string, text: string)
    requires WellFormed(d) && (lead == "" || lead == " ")
    ensures ',' !in lead + DeclaratorText(d) && !IsVoid(lead + DeclaratorText(d))
    ensures ParseParam(lead + DeclaratorText(d), text) == Ok(Param(DeclaratorType(d), d.name))
  {
    PieceText(d, lead);
    ParseDeclarator(lead, d, text);
  }

  lemma PieceText(d: Declarator, lead: string)
    requires WellFormed(d) && (lead == "" || lead == " ")
    ensures ',' !in lead + DeclaratorText(d) && !IsVoid(lead + DeclaratorText(d))
  {
    var piece := lead + DeclaratorText(d);
    assert piece == lead + d.base + " " + d.stars + d.name;
    assert piece[|lead| + |d.base|] == ' ';
    assert ' ' !in "void";
    assert ',' !in d.stars;
  }

  /** A header line splits into its result type, its name and its parameter text. */
  lemma SplitHeaderLine(result: Declarator, gap: string, ps: seq<Declarator>)
    requires WellFormed(result) && (gap == "" || gap == " ")
    requires forall i :: 0 <= i < |ps| ==> WellFormed(ps[i])
    ensures SplitDecl(HeaderLine(result, gap, ps)) == Ok((DeclaratorType(result), result.name, ParamList(ps)))
  {
    var before := " " + DeclaratorText(result) + gap;
    var after := ParamList(ps) + ");";
    HeaderLineAtParen(result, gap, ps);
    BeforeParenStrips(result, gap);
    ParamListStrips(ps);
    DeclaratorSplits("", result);
    DeclaratorMoves("", result);
    assert "" + DeclaratorText(result) == DeclaratorText(result) && "" + result.base == result.base;
    SplitDeclFrom(HeaderLine(result, gap, ps), before, after, ParamList(ps), ";", result.base, result.stars + result.name);
  }

  /** The splitter's stages compose. */
  lemma SplitDeclFrom(text: string, before: string, after: string, params: string, rest: string,
                      t: string, n: string)
    requires SplitOnce(text, '(') == Some((before, after))
    requires RSplitOnce(Strip(after), ')') == Some((params, rest))
    requires RSplitOnce(Strip(before), ' ') == Some((t, n))
    ensures SplitDecl(text) == Ok((MovePointerAndStrip(t, n).0, MovePointerAndStrip(t, n).1, params))
  {
  }

  lemma HeaderLineAtParen(result: Declarator, gap: string, ps: seq<Declarator>)
    requires WellFormed(result) && (gap == "" || gap == " ")
    ensures SplitOnce(HeaderLine(result, gap, ps), '(')
         == Some((" " + DeclaratorText(result) + gap, ParamList(ps) + ");"))
  {
    var text := HeaderLine(result, gap, ps);
    var before := " " + DeclaratorText(result) + gap;
    var after := ParamList(ps) + ");";
    assert before == " " + result.base + " " + result.stars + result.name + gap;
    assert '(' !in result.stars;
    assert '(' !in before;
    assert text == before + "(" + after;
    assert text[..|before|] == before && text[|before|] == '(' && text[|before| + 1..] == after;
    SplitOnceAt(text, '(', |before|);
  }

  lemma BeforeParenStrips(result: Declarator, gap: string)
    requires WellFormed(result) && (gap == "" || gap == " ")
    ensures Strip(" " + DeclaratorText(result) + gap) == DeclaratorText(result)
  {
    var t := DeclaratorText(result);
    var before := " " + t + gap;
    assert t[0] == result.base[0] && t[|t| - 1] == result.name[|result.name| - 1];
    assert before[1..1 + |t|] == t;
    StripBetween(before, 1, 1 + |t|);
  }

  lemma ParamListStrips(ps: seq<Declarator>)
    requires forall i :: 0 <= i < |ps| ==> WellFormed(ps[i])
    ensures Strip(ParamList(ps) + ");") == ParamList(ps) + ");"
    ensures RSplitOnce(ParamList(ps) + ");", ')') == Some((ParamList(ps), ";"))
  {
    var params := ParamList(ps);
    var after := params + ");";
    if ps != [] {
      var pieces := ParamPieces(ps);
      assert pieces[0] == DeclaratorText(ps[0]);
      assert params == pieces[0] + params[|pieces[0]|..] by {
        JoinStartsWith(pieces, ',');
      }
      assert params[0] == ps[0].base[0];
    }
    assert after[0] == params[0];
    StripUnchanged(after);
    assert after[..|params|] == params && after[|params|] == ')' && after[|params| + 1..] == ";";
    RSplitOnceAt(after, ')', |params|);
  }

  lemma JoinStartsWith(parts: seq<string>, sep: char)
    requires |parts| >= 1
    ensures |parts[0]| <= |Join(parts, sep)| && Join(parts, sep)[..|parts[0]|] == parts[0]
  {
  }

  /** A header line parses exactly when its result type and every parameter
      type resolve; its wrapper then carries the line's name, the resolved
      types in order, and per parameter its name with direction flag 2
      exactly when the parameter is written with two or more `*`s. */
  lemma ParseHeaderLine(result: Declarator, gap: string, ps: seq<Declarator>)
    requires WellFormed(result) && (gap == "" || gap == " ")
    requires forall i :: 0 <= i < |ps| ==> WellFormed(ps[i])
    ensures var r := ParseDecl(HeaderLine(result, gap, ps));
      && (r.Ok? <==> TypeLookup(DeclaratorType(result)).Ok?
                     && forall i :: 0 <= i < |ps| ==> TypeLookup(DeclaratorType(ps[i])).Ok?)
      && (r.Ok? ==>
            && r.value.name == result.name
            && r.value.restype == TypeLookup(DeclaratorType(result)).value
            && |r.value.argtypes| == |ps| && |r.value.paramflags| == |ps|
            && forall i :: 0 <= i < |ps| ==>
                 && r.value.argtypes[i] == TypeLookup(DeclaratorType(ps[i])).value
                 && r.value.paramflags[i] == (if |ps[i].stars| >= 2 then 2 else 1, ps[i].name))
  {
    var text := HeaderLine(result, gap, ps);
    var params := Params(ps);
    SplitHeaderLine(result, gap, ps);
    ParseParamList(ps, text);
    ParseDeclStages(text, DeclaratorType(result), result.name, ParamList(ps), params);
    HeaderArgTypes(ps);
    HeaderFlags(ps);
  }

  /** The parameter types of a header line resolve exactly when each one's
      lookup succeeds, and resolve to those lookups in order. */
  lemma HeaderArgTypes(ps: seq<Declarator>)
    ensures var r := ResolveTypes(Params(ps));
      && (r.Ok? <==> forall i :: 0 <= i < |ps| ==> TypeLookup(DeclaratorType(ps[i])).Ok?)
      && (r.Ok? ==> forall i :: 0 <= i < |ps| ==> r.value[i] == TypeLookup(DeclaratorType(ps[i])).value)
  {
    var params := Params(ps);
    ResolveTypesSpec(params);
    assert forall i :: 0 <= i < |ps| ==> params[i].typeDef == DeclaratorType(ps[i]);
  }

  /** Each parameter of a header line gets flag 2 exactly when it is written
      with two or more `*`s, and carries its name. */
  lemma HeaderFlags(ps: seq<Declarator>)
    requires forall i :: 0 <= i < |ps| ==> WellFormed(ps[i])
    ensures forall i :: 0 <= i < |ps| ==>
      ParamFlags(Params(ps))[i] == (if |ps[i].stars| >= 2 then 2 else 1, ps[i].name)
  {
    forall i | 0 <= i < |ps|
      ensures ParamFlags(Params(ps))[i] == (if |ps[i].stars| >= 2 then 2 else 1, ps[i].name)
    {
      DoubleStar(ps[i]);
    }
  }

  /** The parser's stages compose: once the declaration splits and its
      parameters parse, it parses exactly when the result type and the
      parameter types resolve, to the wrapper built from them. */
  lemma ParseDeclStages(text: string, rtnType: string, name: string, params: string, specs: seq<Param>)
    requires SplitDecl(text) == Ok((rtnType, name, params))
    requires ParseParams(Split(params, ','), text) == Ok(specs)
    ensures ParseDecl(text).Ok? <==> TypeLookup(rtnType).Ok? && ResolveTypes(specs).Ok?
    ensures ParseDecl(text).Ok? ==>
      ParseDecl(text).value == FuncDecl(name, TypeLookup(rtnType).value, ResolveTypes(specs).value, ParamFlags(specs))
  {
  }

  /** A declarator's type holds `**` exactly when it is written with two or more `*`s. */
  lemma DoubleStar(d: Declarator)
    requires WellFormed(d)
    ensures Contains(DeclaratorType(d), "**") <==> |d.stars| >= 2
  {
    var t := DeclaratorType(d);
    ContainsOccurs(t, "**");
    if |d.stars| >= 2 {
      var i := |d.base| + 1;
      assert t[i..i + 2] == "**";
      assert OccursAt(t, "**", i);
    } else if d.stars == [] {
      forall i: nat | i + 2 <= |t|
        ensures !OccursAt(t, "**", i)
      {
        assert t[i..i + 2][0] == d.base[i];
      }
    } else {
      assert t == d.base + " " + d.stars;
      forall i: nat | i + 2 <= |t|
        ensures !OccursAt(t, "**", i)
      {
        if i < |d.base| {
          assert t[i..i + 2][0] == d.base[i];
        } else {
          assert t[i..i + 2][0] == ' ';
        }
      }
    }
  }

  // ---------------------------------------------------------------------------
  // The header and the exported wrappers
  // ---------------------------------------------------------------------------

  /** A header line as the module loop sees it: `None` for a blank line,
      otherwise the parser's verdict on it. */
  function ParseLine(line: string): (r: Option<Result<FuncDecl>>)
    ensures r.None? <==> forall k :: 0 <= k < |line| ==> IsSpace(line[k])
  {
    StripBlank(line);
    if Strip(line) == [] then None else Some(ParseDecl(line))
  }

  function ParseLines(lines: seq<string>): (parsed: seq<Option<Result<FuncDecl>>>)
    ensures |parsed| == |lines|
    ensures forall i :: 0 <= i < |lines| ==> parsed[i] == ParseLine(lines[i])
  {
    seq(|lines|, i requires 0 <= i < |lines| => ParseLine(lines[i]))
  }

  /** The module globals the header loop leaves: each parsed line's wrapper
      under `'_' + name`, in line order (a later line with the same name
      replaces the earlier wrapper in place); the first failing line aborts. */
  function Exports(parsed: seq<Option<Result<FuncDecl>>>): (r: Result<seq<(string, FuncDecl)>>)
    ensures r.Ok? ==> Distinct(Keys(r.value)) && ExportedByName(r.value)
  {
    if parsed == [] then Ok([])
    else
      match Exports(parsed[..|parsed| - 1])
      case Err(e) => Err(e)
      case Ok(d) =>
        match parsed[|parsed| - 1]
        case None => Ok(d)
        case Some(Err(e)) => Err(e)
        case Some(Ok(f)) => Ok(Export(d, f))
  }

  /** Every global holds the wrapper whose name it carries after the `_`. */
  ghost predicate ExportedByName(d: seq<(string, FuncDecl)>) {
    forall i :: 0 <= i < |d| ==> d[i].0 == "_" + d[i].1.name
  }

  /** `globals()['_' + func.__name__] = func`. */
  function Export(d: seq<(string, FuncDecl)>, f: FuncDecl): (r: seq<(string, FuncDecl)>)
    requires Distinct(Keys(d)) && ExportedByName(d)
    ensures Distinct(Keys(r)) && ExportedByName(r)
    ensures "_" + f.name in Keys(r)
    ensures forall k :: k in Keys(d) ==> k in Keys(r)
  {
    Put(d, "_" + f.name, f)
  }

  /** When the import succeeds, every non-blank line parsed and its wrapper is
      exported under `'_' + name`. */
  lemma {:induction false} ExportsCover(parsed: seq<Option<Result<FuncDecl>>>, j: nat)
    requires Exports(parsed).Ok? && j < |parsed| && parsed[j].Some?
    ensures parsed[j].value.Ok?
    ensures "_" + parsed[j].value.value.name in Keys(Exports(parsed).value)
  {
    var init := parsed[..|parsed| - 1];
    var d := Exports(init).value;
    if j < |init| {
      assert parsed[j] == init[j];
      ExportsCover(init, j);
    }
  }

  /** A failed import fails on a non-blank line, with that line's error. */
  lemma {:induction false} ExportsFailure(parsed: seq<Option<Result<FuncDecl>>>)
    requires Exports(parsed).Err?
    ensures exists j :: 0 <= j < |parsed| && parsed[j] == Some(Err(Exports(parsed).error))
  {
    var init := parsed[..|parsed| - 1];
    if Exports(init).Err? {
      ExportsFailure(init);
      var j :| 0 <= j < |init| && init[j] == Some(Err(Exports(init).error));
      assert parsed[j] == init[j];
    }
  }

  /** Once a line fails, the lines after it do not change the outcome. */
  lemma {:induction false} ExportsErrSticky(parsed: seq<Option<Result<FuncDecl>>>, i: nat)
    requires i <= |parsed| && Exports(parsed[..i]).Err?
    ensures Exports(parsed) == Exports(parsed[..i])
    decreases |parsed| - i
  {
    if i < |parsed| {
      assert parsed[..i + 1][..i] == parsed[..i];
      ExportsErrSticky(parsed, i + 1);
    } else {
      assert parsed[..i] == parsed;
    }
  }

  /** The module-level loop over the header lines: blank lines are skipped,
      every other line is parsed and its wrapper stored under `'_' + name`;
      a line that does not parse aborts the import. */
  method ExportHeader(lines: seq<string>) returns (r: Result<seq<(string, FuncDecl)>>)
    ensures r == Exports(ParseLines(lines))
  {
    ghost var parsed := ParseLines(lines);
    var globals: seq<(string, FuncDecl)> := [];
    var i := 0;
    while i < |lines|
      invariant 0 <= i <= |lines|
      invariant Exports(parsed[..i]) == Ok(globals)
    {
      var line := lines[i];
      ExportsStep(parsed, i);
      if Strip(line) != [] {
        var decl := ParseDecl(line);
        if decl.Err? {
          ExportsErrSticky(parsed, i + 1);
          return Err(decl.error);
        }
        globals := Export(globals, decl.value);
      }
      i := i + 1;
    }
    assert parsed[..i] == parsed;
    r := Ok(globals);
  }

  /** One more line: a blank line changes nothing, a failing line fails the
      import, a parsed line exports its wrapper. */
  lemma ExportsStep(parsed: seq<Option<Result<FuncDecl>>>, i: nat)
    requires i < |parsed| && Exports(parsed[..i]).Ok?
    ensures parsed[i].None? ==> Exports(parsed[..i + 1]) == Exports(parsed[..i])
    ensures parsed[i].Some? && parsed[i].value.Err? ==>
      Exports(parsed[..i + 1]) == Err(parsed[i].value.error)
    ensures parsed[i].Some? && parsed[i].value.Ok? ==>
      Exports(parsed[..i + 1]) == Ok(Export(Exports(parsed[..i]).value, parsed[i].value.value))
  {
    assert parsed[..i + 1][..i] == parsed[..i];
  }

  // ---------------------------------------------------------------------------
  // Symbols
  // ---------------------------------------------------------------------------

  predicate IsAscii(b: seq<byte>) {
    forall i :: 0 <= i < |b| ==> b[i] < 128
  }

  /** `name.decode('ascii')`. */
  function DecodeAscii(b: seq<byte>): (s: string)
    requires IsAscii(b)
    ensures |s| == |b| && forall i :: 0 <= i < |b| ==> s[i] as int == b[i] as int
  {
    seq(|b|, i requires 0 <= i < |b| => (b[i] as int) as char)
  }

  /** `nn_symbols()`: query `nn_symbol(0)`, `nn_symbol(1)`, … and stop at the
      first index with no symbol; every name is decoded as ASCII. `symbol(i)`
      is the library's answer for index `i`: the name's bytes and the value. */
  method Symbols(symbol: nat -> Option<(seq<byte>, int)>) returns (r: Result<seq<(string, int)>>)
    requires exists n: nat :: symbol(n).None?
    ensures r.Ok? ==> symbol(|r.value|).None?
    ensures r.Ok? ==> forall i :: 0 <= i < |r.value| ==>
      (symbol(i).Some? && IsAscii(symbol(i).value.0)
       && r.value[i] == (DecodeAscii(symbol(i).value.0), symbol(i).value.1))
    ensures r.Err? ==> r.error == NonAsciiName && exists k: nat ::
      (symbol(k).Some? && !IsAscii(symbol(k).value.0) && forall i: nat :: i < k ==> symbol(i).Some?)
  {
    ghost var n: nat :| symbol(n).None?;
    var pairs: seq<(string, int)> := [];
    var i := 0;
    while symbol(i).Some?
      invariant 0 <= i <= n && |pairs| == i
      invariant forall j :: 0 <= j < i ==>
        (symbol(j).Some? && IsAscii(symbol(j).value.0)
         && pairs[j] == (DecodeAscii(symbol(j).value.0), symbol(j).value.1))
      decreases n - i
    {
      var (name, value) := symbol(i).value;
      if !IsAscii(name) {
        return Err(NonAsciiName);
      }
      pairs := pairs + [(DecodeAscii(name), value)];
      i := i + 1;
    }
    r := Ok(pairs);
  }

  // ---------------------------------------------------------------------------
  // Poll
  // ---------------------------------------------------------------------------

  /** The `PollFds` array built from the interest dict, `revents` left out
      (the library fills it). */
  function PollArray(fds: seq<(int, bv16)>): (a: seq<PollFd>)
    ensures |a| == |fds|
    ensures forall i :: 0 <= i < |fds| ==> a[i] == PollFd(fds[i].0, fds[i].1)
  {
    seq(|fds|, i requires 0 <= i < |fds| => PollFd(fds[i].0, fds[i].1))
  }

  /** `{item.fd: item.revents for item in poll_array}`. */
  function ReventsByFd(fds: seq<(int, bv16)>, revents: seq<bv16>): (d: seq<(int, bv16)>)
    requires |revents| == |fds|
    ensures Keys(d) == Keys(fds)
    ensures forall i :: 0 <= i < |fds| ==> d[i] == (fds[i].0, revents[i])
  {
    seq(|fds|, i requires 0 <= i < |fds| => (fds[i].0, revents[i]))
  }

  /** `nn_poll(fds, timeout)`: one array entry per dict item, in dict order; a
      zero or negative status comes back with an empty dict, a positive one
      with every polled fd mapped to its `revents`. */
  method Poll(fds: seq<(int, bv16)>, timeout: int, eng: Engine) returns (res: int, results: seq<(int, bv16)>)
    requires Distinct(Keys(fds))
    modifies eng
    ensures exists revents: seq<bv16> ::
      (|revents| == |fds|
       && eng.log == old(eng.log) + [NnPoll(PollArray(fds), timeout, res, revents)]
       && results == (if res <= 0 then [] else ReventsByFd(fds, revents)))
  {
    var polls: seq<PollFd> := [];
    var i := 0;
    while i < |fds|
      invariant 0 <= i <= |fds| && polls == PollArray(fds[..i])
    {
      polls := polls + [PollFd(fds[i].0, fds[i].1)];
      i := i + 1;
    }
    assert fds[..i] == fds;
    var revents;
    res, revents := eng.Poll(polls, timeout);
    if res <= 0 {
      results := [];
    } else {
      results := ReventsByFd(fds, revents);
    }
  }

  // ---------------------------------------------------------------------------
  // Options, sending and receiving
  // ---------------------------------------------------------------------------

  /** `nn_setsockopt(socket, level, option, value)`: both the direct path and the
      string-buffer fallback hand the library the value's bytes and length. */
  method SetSockOpt(s: int, level: int, option: int, value: seq<byte>, eng: Engine) returns (rtn: int)
    modifies eng
    ensures eng.log == old(eng.log) + [NnSetSockOpt(s, level, option, value, rtn)]
  {
    rtn := eng.SetSockOpt(s, level, option, value);
  }

  /** `nn_getsockopt(socket, level, option, value)`: a read-only buffer is a
      `TypeError` before any native call, and so is a writable buffer that is
      not a ctypes object (`ctypes.addressof` rejects a `bytearray`); a ctypes
      array is handed to the library, which writes into it, and the result is
      the status and the option's reported length. */
  method GetSockOpt(s: int, level: int, option: int, buf: Buffer, eng: Engine) returns (r: Result<(int, nat)>)
    modifies eng, buf
    ensures buf.kind == Bytes ==> r == Err(ReadOnlyBuffer) && eng.log == old(eng.log) && buf.bytes == old(buf.bytes)
    ensures buf.kind == ByteArray ==> r == Err(NotAddressable) && eng.log == old(eng.log) && buf.bytes == old(buf.bytes)
    ensures buf.kind == CArray ==>
      (r.Ok? && |buf.bytes| == |old(buf.bytes)|
       && eng.log == old(eng.log) + [NnGetSockOpt(s, level, option, |buf.bytes|, r.value.0, r.value.1, buf.bytes)])
  {
    if buf.kind == Bytes {
      return Err(ReadOnlyBuffer);
    }
    if buf.kind == ByteArray {
      return Err(NotAddressable);
    }
    var rtn, length := eng.GetSockOpt(s, level, option, buf);
    r := Ok((rtn, length));
  }

  /** `nn_send(socket, msg, flags)` for a `bytes` message. */
  method Send(s: int, msg: seq<byte>, flags: int, eng: Engine) returns (rtn: int)
    modifies eng
    ensures eng.log == old(eng.log) + [NnSend(s, msg, flags, rtn)]
  {
    rtn := eng.Send(s, msg, flags);
  }

  /** A message chunk the library allocated, viewed as `length` bytes at `address`. */
  class Message {
    var len: nat
    var address: int
    const bytes: seq<byte>

    /** `_create_message(address, length)`. */
    constructor (address: int, bytes: seq<byte>)
      ensures this.address == address && this.bytes == bytes && len == |bytes|
    {
      this.address := address;
      this.bytes := bytes;
      len := |bytes|;
    }

    /** `Message.__del__`: free the chunk, then forget its length and address. */
    method Delete(eng: Engine)
      modifies this, eng
      ensures exists rtn :: eng.log == old(eng.log) + [NnFreeMsg(old(address), rtn)]
      ensures len == 0 && address == 0
    {
      var rtn := eng.FreeMsg(address);
      len := 0;
      address := 0;
    }
  }

  /** `nn_allocmsg(size, type)`: a NULL pointer gives `None`, anything else a
      message of `size` bytes at the returned address. */
  method AllocMsg(size: nat, msgType: int, eng: Engine) returns (m: Option<Message>)
    modifies eng
    ensures exists address ::
      (eng.log == old(eng.log) + [NnAllocMsg(size, msgType, address)]
       && (m.None? <==> address == 0)
       && (m.Some? ==> m.value.address == address))
    ensures m.Some? ==> fresh(m.value) && m.value.len == size
  {
    var address, contents := eng.AllocMsg(size, msgType);
    if address == 0 {
      m := None;
    } else {
      var msg := new Message(address, contents);
      m := Some(msg);
    }
  }

  /** One-argument `nn_recv(socket, flags)`: the library allocates the message;
      a negative status gives no message, otherwise a message of `rtn` bytes. */
  method RecvMsg(s: int, flags: int, eng: Engine) returns (rtn: int, m: Option<Message>)
    modifies eng
    ensures exists address, data ::
      (eng.log == old(eng.log) + [NnRecvMsg(s, flags, rtn, address, data)]
       && (rtn < 0 ==> m.None?)
       && (rtn >= 0 ==> m.Some? && m.value.address == address && m.value.bytes == data && |data| == rtn))
    ensures m.Some? ==> fresh(m.value) && m.value.len == rtn
  {
    var address, data;
    rtn, address, data := eng.RecvMsg(s, flags);
    if rtn < 0 {
      m := None;
    } else {
      var msg := new Message(address, data);
      m := Some(msg);
    }
  }

  /** Two-argument `nn_recv(socket, buf, flags)`: a read-only buffer is a
      `TypeError` before any native call, and so is a writable buffer that is
      not a ctypes object (`ctypes.addressof` rejects a `bytearray`); into a
      ctypes array the library receives up to the array's length. */
  method RecvInto(s: int, buf: Buffer, flags: int, eng: Engine) returns (r: Result<int>)
    modifies eng, buf
    ensures buf.kind == Bytes ==> r == Err(ReadOnlyBuffer) && eng.log == old(eng.log) && buf.bytes == old(buf.bytes)
    ensures buf.kind == ByteArray ==> r == Err(NotAddressable) && eng.log == old(eng.log) && buf.bytes == old(buf.bytes)
    ensures buf.kind == CArray ==>
      (r.Ok? && |buf.bytes| == |old(buf.bytes)|
       && eng.log == old(eng.log) + [NnRecvInto(s, |buf.bytes|, flags, r.value, buf.bytes)])
  {
    if buf.kind == Bytes {
      return Err(ReadOnlyBuffer);
    }
    if buf.kind == ByteArray {
      return Err(NotAddressable);
    }
    var rtn := eng.RecvInto(s, buf, flags);
    r := Ok(rtn);
  }
}
