/**
 * The constant-collection factory (src/short_con/new.py): `constants` turns a dict, a
 * string, a list or a tuple into two parallel lists, names and values, checks them and
 * builds the record; `cons` and `enumcons` prepare the input for it.
 */
module ShortCon {
  import opened Wrappers
  import opened PyStr
  import opened PyDict
  import opened Collection

  const ErrMultipleMessage: string := "Provide positional or keyword arguments, not both"
  const ErrNoneMessage: string := "No names/values given"
  const ErrTypeMessage: string := "contants() argument must be a dict, str, list, or tuple"

  /** The `attrs` argument of `constants`, told apart by the `isinstance` tests. */
  datatype Attrs =
    | DictArg(d: Dict<Value>)
    | StrArg(s: string)
    | ListArg(items: seq<string>)  // a list or a tuple
    | OtherArg(id: nat)            // any other object, such as an int

  /**
   * What a call raises: a ShortConError with its message and its keyword payload, or
   * the TypeError with which `make_dataclass` rejects a field name.
   */
  datatype Error =
    | ErrMultiple(names: seq<string>, kws: Dict<Value>)
    | ErrNone(attrs: Attrs)
    | ErrType(attrs: Attrs)
    | FieldRejected(name: string, reason: Reason)

  /** The message a ShortConError carries. */
  function Message(e: Error): string
    requires !e.FieldRejected?
  {
    match e
    case ErrMultiple(_, _) => ErrMultipleMessage
    case ErrNone(_) => ErrNoneMessage
    case ErrType(_) => ErrTypeMessage
  }

  /** `_tup_to_names(tup)`: each string split on whitespace, the tokens concatenated in order. */
  function TupToNames(tup: seq<string>): (names: seq<string>)
    ensures forall i :: 0 <= i < |names| ==> IsToken(names[i])
  {
    if tup == [] then [] else Split(tup[0]) + TupToNames(tup[1..])
  }

  /** The elements of a Python string when it is iterated: its characters, as strings. */
  function Chars(s: string): seq<string> {
    seq(|s|, i requires 0 <= i < |s| => [s[i]])
  }

  /** The non-whitespace characters of `s`, each as a one-character string. */
  function NonSpaceChars(s: string): seq<string> {
    if s == [] then [] else (if IsSpace(s[0]) then [] else [[s[0]]]) + NonSpaceChars(s[1..])
  }

  /** `[val_func(nm) for nm in names]`, or `names` themselves when there is no `val_func`. */
  function DeriveValues(names: seq<string>, valFunc: Option<string -> Value>): (vals: seq<Value>)
    ensures |vals| == |names|
  {
    match valFunc
    case Some(f) => seq(|names|, i requires 0 <= i < |names| => f(names[i]))
    case None => seq(|names|, i requires 0 <= i < |names| => StrVal(names[i]))
  }

  /** new.py:77-103: refuse an empty list of names, then build the record. */
  function Finish(attrs: Attrs, names: seq<string>, vals: seq<Value>): (r: Result<Record, Error>)
    requires |names| == |vals|
    ensures r == Err(ErrNone(attrs)) <==> names == []
    ensures r.Ok? <==> names != [] && RejectedField(names, {}).None?
    ensures r.Ok? ==> Valid(r.value) && r.value.names == names && r.value.vals == vals
    ensures r.Err? && r.error.FieldRejected? ==> r.error.name in names
  {
    if names == [] then Err(ErrNone(attrs))
    else
      match RejectedField(names, {})
      case Some((n, why)) => Err(FieldRejected(n, why))
      case None =>
        RejectedFieldNone(names, {});
        Ok(Make(names, vals))
  }

  /** `constants(attrs, val_func = valFunc)`. */
  function Constants(attrs: Attrs, valFunc: Option<string -> Value>): (r: Result<Record, Error>)
    ensures r.Ok? ==> Valid(r.value)
    ensures attrs.OtherArg? <==> r == Err(ErrType(attrs))
    ensures r.Err? && r.error.ErrNone? ==> r.error.attrs == attrs
    ensures attrs.DictArg? && r.Ok? ==> Iter(r.value) == attrs.d
    ensures attrs.ListArg? && r.Ok? ==> r.value.names == attrs.items
    ensures r.Ok? && valFunc.None? && !attrs.DictArg? ==>
      forall i :: 0 <= i < |r.value.names| ==> r.value.vals[i] == StrVal(r.value.names[i])
    ensures r.Ok? && valFunc.Some? && !attrs.DictArg? ==>
      forall i :: 0 <= i < |r.value.names| ==> r.value.vals[i] == valFunc.value(r.value.names[i])
  {
    match attrs
    case DictArg(d) =>
      var r := Finish(attrs, KeysOf(d), ValuesOf(d));
      assert r.Ok? ==> Zip(KeysOf(d), ValuesOf(d)) == d;
      r
    case StrArg(s) =>
      var names := TupToNames(Chars(s));
      Finish(attrs, names, DeriveValues(names, valFunc))
    case ListArg(items) =>
      Finish(attrs, items, DeriveValues(items, valFunc))
    case OtherArg(_) =>
      Err(ErrType(attrs))
  }

  /** `cons(*names, **kws)`. */
  function Cons(names: seq<string>, kws: Dict<Value>): (r: Result<Record, Error>)
    ensures names != [] && kws != [] ==> r == Err(ErrMultiple(names, kws))
    ensures names == [] && kws == [] ==> r == Err(ErrNone(ListArg([])))
    ensures r.Ok? ==> Valid(r.value)
    ensures r.Ok? && kws != [] ==> Iter(r.value) == kws
    ensures r.Ok? && kws == [] ==>
      && r.value.names == TupToNames(names)
      && forall i :: 0 <= i < |r.value.names| ==> r.value.vals[i] == StrVal(r.value.names[i])
  {
    if names != [] && kws != [] then Err(ErrMultiple(names, kws))
    else if kws != [] then Constants(DictArg(kws), None)
    else Constants(ListArg(TupToNames(names)), None)
  }

  /** `{nm: start + step * i for i, nm in enumerate(names)}`. */
  function EnumDict(names: seq<string>, start: int, step: int): Dict<Value> {
    FromPairs(Zip(names, EnumValues(names, start, step)))
  }

  /** The value `enumcons` gives the name at position i. */
  function EnumValue(start: int, step: int, i: int): int {
    start + step * i
  }

  /** `EnumValue(start, step, i)` for each position i. */
  function EnumValues(names: seq<string>, start: int, step: int): seq<Value> {
    seq(|names|, i requires 0 <= i < |names| => IntVal(EnumValue(start, step, i)))
  }

  /**
   * `enumcons(*names, start = start, step = step, **kws)`; of the keyword arguments
   * passed on to `constants`, only `val_func` is modelled (`cls_name` has no effect).
   */
  function EnumCons(names: seq<string>, start: int, step: int, valFunc: Option<string -> Value>)
    : (r: Result<Record, Error>)
    ensures r.Ok? ==> Valid(r.value)
    ensures r.Err? ==> !r.error.ErrMultiple? && !r.error.ErrType?
  {
    Constants(DictArg(EnumDict(TupToNames(names), start, step)), valFunc)
  }

  // ---------------------------------------------------------------------------------
  // Splitting names

  lemma TupToNamesSingle(s: string)
    ensures TupToNames([s]) == Split(s)
  {
    assert [s][1..] == [];
    assert TupToNames([s]) == Split(s) + TupToNames([]);
  }

  /** `_tup_to_names` distributes over concatenation of its input. */
  lemma {:induction false} TupToNamesAppend(a: seq<string>, b: seq<string>)
    ensures TupToNames(a + b) == TupToNames(a) + TupToNames(b)
    decreases |a|
  {
    if a == [] {
      assert a + b == b;
    } else {
      assert (a + b)[1..] == a[1..] + b;
      TupToNamesAppend(a[1..], b);
    }
  }

  /** `_tup_to_names` keeps exactly the non-whitespace characters of its strings. */
  lemma {:induction false} TupToNamesKeepsNonSpace(tup: seq<string>)
    ensures Concat(TupToNames(tup)) == Concat(seq(|tup|, i requires 0 <= i < |tup| => NonSpace(tup[i])))
    decreases |tup|
  {
    if tup != [] {
      var rest := seq(|tup| - 1, i requires 0 <= i < |tup| - 1 => NonSpace(tup[1..][i]));
      assert seq(|tup|, i requires 0 <= i < |tup| => NonSpace(tup[i])) == [NonSpace(tup[0])] + rest;
      TupToNamesKeepsNonSpace(tup[1..]);
      SplitKeepsNonSpace(tup[0]);
      ConcatAppend(Split(tup[0]), TupToNames(tup[1..]));
    }
  }

  lemma {:induction false} ConcatAppend(a: seq<string>, b: seq<string>)
    ensures Concat(a + b) == Concat(a) + Concat(b)
    decreases |a|
  {
    if a == [] {
      assert a + b == b;
    } else {
      assert (a + b)[1..] == a[1..] + b;
      ConcatAppend(a[1..], b);
    }
  }

  /** `_tup_to_names` returns `[]` exactly when every string is empty or all whitespace. */
  lemma {:induction false} TupToNamesEmptyIffBlank(tup: seq<string>)
    ensures TupToNames(tup) == [] <==> forall i :: 0 <= i < |tup| ==> AllSpace(tup[i])
    decreases |tup|
  {
    if tup != [] {
      TupToNamesEmptyIffBlank(tup[1..]);
      SplitEmptyIffBlank(tup[0]);
      assert forall i :: 1 <= i < |tup| ==> tup[i] == tup[1..][i - 1];
    }
  }

  /** Iterating a string instead of a tuple: one name per non-whitespace character. */
  lemma {:induction false} TupToNamesOfChars(s: string)
    ensures TupToNames(Chars(s)) == NonSpaceChars(s)
    decreases |s|
  {
    if s != [] {
      assert Chars(s) == [[s[0]]] + Chars(s[1..]);
      TupToNamesAppend([[s[0]]], Chars(s[1..]));
      SplitChar(s[0]);
      TupToNamesOfChars(s[1..]);
    }
  }

  lemma {:induction false} NonSpaceCharsOfSpace(s: string)
    requires AllSpace(s)
    ensures NonSpaceChars(s) == []
    decreases |s|
  {
    if s != [] {
      NonSpaceCharsOfSpace(s[1..]);
    }
  }

  // ---------------------------------------------------------------------------------
  // constants

  /** Each kind of input with no names is refused with ERR_NONE, carrying the input. */
  lemma ConstantsEmpty(attrs: Attrs, valFunc: Option<string -> Value>)
    requires
      || (attrs.DictArg? && attrs.d == [])
      || (attrs.ListArg? && attrs.items == [])
      || (attrs.StrArg? && AllSpace(attrs.s))
    ensures Constants(attrs, valFunc) == Err(ErrNone(attrs))
  {
    if attrs.StrArg? {
      TupToNamesOfChars(attrs.s);
      NonSpaceCharsOfSpace(attrs.s);
    }
  }

  /**
   * When `constants` succeeds: a non-empty list of names that `make_dataclass` accepts.
   * A dict's keys are distinct already, so only their form matters.
   */
  lemma ConstantsSucceeds(attrs: Attrs, valFunc: Option<string -> Value>)
    ensures attrs.DictArg? ==>
      (Constants(attrs, valFunc).Ok? <==>
        attrs.d != [] && forall k :: k in KeysOf(attrs.d) ==> IsFieldName(k))
    ensures attrs.ListArg? ==>
      (Constants(attrs, valFunc).Ok? <==> attrs.items != [] && ValidFields(attrs.items))
    ensures attrs.StrArg? ==>
      (Constants(attrs, valFunc).Ok? <==>
        NonSpaceChars(attrs.s) != [] && ValidFields(NonSpaceChars(attrs.s)))
  {
    match attrs
    case DictArg(d) =>
      RejectedFieldNone(KeysOf(d), {});
    case ListArg(items) =>
      RejectedFieldNone(items, {});
    case StrArg(s) =>
      TupToNamesOfChars(s);
      RejectedFieldNone(NonSpaceChars(s), {});
    case OtherArg(_) =>
  }

  /** A string argument gives one field per non-whitespace character. */
  lemma ConstantsStrNames(s: string, valFunc: Option<string -> Value>)
    requires Constants(StrArg(s), valFunc).Ok?
    ensures Constants(StrArg(s), valFunc).value.names == NonSpaceChars(s)
  {
    TupToNamesOfChars(s);
  }

  /** For a dict argument, `val_func` is not used. */
  lemma ConstantsDictIgnoresValFunc(d: Dict<Value>, valFunc: Option<string -> Value>)
    ensures Constants(DictArg(d), valFunc) == Constants(DictArg(d), None)
  {
  }

  /** Round trip: rebuilding from the (name, value) pairs of a record gives the same record. */
  lemma ConstantsFromItems(c: Record, valFunc: Option<string -> Value>)
    requires Valid(c)
    ensures Distinct(KeysOf(Iter(c)))
    ensures Constants(DictArg(Iter(c)), valFunc) == Ok(c)
  {
    var items := Iter(c);
    assert KeysOf(items) == c.names;
    assert ValuesOf(items) == c.vals;
    RejectedFieldNone(c.names, {});
  }

  const KingQueen: string := "KING QUEEN"

  /**
   * A string argument is iterated character by character, so "KING QUEEN" asks for the
   * fields K, I, N, G, Q, U, E, E, N and is refused at the second E.
   */
  lemma StrArgSplitsIntoChars()
    ensures Constants(StrArg(KingQueen), None) == Err(FieldRejected("E", Duplicated))
  {
    TupToNamesOfChars(KingQueen);
    KingQueenChars();
    KingQueenRejected(["K", "I", "N", "G", "Q", "U", "E", "E", "N"]);
  }

  // The literal comes in as a parameter so that the verifier does not unfold it.
  lemma KingQueenRejected(names: seq<string>)
    requires names == ["K", "I", "N", "G", "Q", "U", "E", "E", "N"]
    ensures RejectedField(names, {}) == Some(("E", Duplicated))
  {
    KeywordsAreLong();
    forall i | 0 <= i <= 7 ensures IsFieldName(names[i]) {
      assert |names[i]| == 1 && IsIdentStart(names[i][0]);
    }
    assert names[6] == names[7];
    forall i, j | 0 <= i < j < 7 ensures names[i] != names[j] {
    }
    RejectedFieldFirstRepeat(names, {}, 7);
  }

  lemma KingQueenChars()
    ensures NonSpaceChars(KingQueen) == ["K", "I", "N", "G", "Q", "U", "E", "E", "N"]
  {
  }

  // ---------------------------------------------------------------------------------
  // cons

  lemma IdentCharNotSpace(c: char)
    requires IsIdentChar(c)
    ensures !IsSpace(c)
  {
  }

  /** Valid field names survive splitting: each is a whitespace-free token. */
  lemma FieldNamesAreTokens(ws: seq<string>)
    requires forall i :: 0 <= i < |ws| ==> IsIdentifier(ws[i])
    ensures forall i :: 0 <= i < |ws| ==> IsToken(ws[i])
  {
    forall i, j | 0 <= i < |ws| && 0 <= j < |ws[i]| ensures !IsSpace(ws[i][j]) {
      IdentCharNotSpace(ws[i][j]);
    }
  }

  /**
   * `cons("A B C")`: distinct valid names separated by whitespace give one field per
   * word, in order, each holding its own name.
   */
  lemma ConsWords(ws: seq<string>, sep: string)
    requires ws != [] && ValidFields(ws)
    requires |sep| > 0 && AllSpace(sep)
    ensures Cons([Join(ws, sep)], []) == Ok(Make(ws, DeriveValues(ws, None)))
  {
    FieldNamesAreTokens(ws);
    SplitOfJoin(ws, sep);
    TupToNamesSingle(Join(ws, sep));
    RejectedFieldNone(ws, {});
  }

  const Pieces: string := "KING QUEEN ROOK"

  /**
   * `cons("KING QUEEN ROOK")`: three fields whose values are their names. The literal
   * comes in as a parameter so that the verifier does not unfold it.
   */
  lemma ConsExample(s: string)
    requires s == Pieces
    ensures Cons([s], []).Ok?
    ensures Cons([s], []).value.names == ["KING", "QUEEN", "ROOK"]
    ensures Cons([s], []).value.vals == [StrVal("KING"), StrVal("QUEEN"), StrVal("ROOK")]
  {
    var ws := ["KING", "QUEEN", "ROOK"];
    ChessWords(ws);
    ConsWords(ws, " ");
  }

  /** Reading the record `cons("KING QUEEN ROOK")` returns. */
  lemma ChessRecord(c: Record)
    requires Valid(c) && c.names == ["KING", "QUEEN", "ROOK"]
    requires c.vals == [StrVal("KING"), StrVal("QUEEN"), StrVal("ROOK")]
    ensures GetItem(c, "ROOK") == Ok(StrVal("ROOK"))
    ensures Len(c) == 3 && Contains(c, "QUEEN")
    ensures c.hasGet && Get(c, "PAWN", IntVal(42)) == IntVal(42)
  {
    assert c.names[2] == "ROOK" && c.vals[2] == StrVal("ROOK");
    assert c.names[1] == "QUEEN";
    assert "PAWN" !in c.names;
  }

  // The literal comes in as a parameter so that the verifier does not unfold it.
  lemma ChessWords(ws: seq<string>)
    requires ws == ["KING", "QUEEN", "ROOK"]
    ensures ws != [] && ValidFields(ws) && Join(ws, " ") == Pieces
    ensures DeriveValues(ws, None) == [StrVal("KING"), StrVal("QUEEN"), StrVal("ROOK")]
  {
    ChessFieldNames();
    assert Join(ws[2..], " ") == "ROOK";
    assert Join(ws[1..], " ") == "QUEEN" + " " + "ROOK";
    assert Join(ws, " ") == "KING" + " " + ("QUEEN" + " " + "ROOK");
  }

  lemma ChessFieldNames()
    ensures IsFieldName("KING") && IsFieldName("QUEEN") && IsFieldName("ROOK")
  {
    assert "KING" !in Keywords;
    assert "QUEEN" !in Keywords;
    assert "ROOK" !in Keywords;
  }

  // ---------------------------------------------------------------------------------
  // enumcons

  /** Without repeated names, the name at position i is given `start + step * i`. */
  lemma EnumDictOfDistinct(names: seq<string>, start: int, step: int)
    requires Distinct(names)
    ensures |EnumDict(names, start, step)| == |names|
    ensures forall i :: 0 <= i < |names| ==>
      EnumDict(names, start, step)[i] == (names[i], IntVal(EnumValue(start, step, i)))
  {
    var ps := Zip(names, EnumValues(names, start, step));
    ZipParts(names, EnumValues(names, start, step));
    FromPairsOfDistinct(ps);
  }

  /**
   * With repeated names, each name is kept once, at the place where it first occurs,
   * and holds the value computed for its last occurrence.
   */
  lemma EnumDictRepeated(names: seq<string>, start: int, step: int, k: string)
    requires k in names
    ensures Lookup(EnumDict(names, start, step), k) == Some(IntVal(EnumValue(start, step, LastIndexOf(names, k))))
  {
    var ps := Zip(names, EnumValues(names, start, step));
    ZipParts(names, EnumValues(names, start, step));
    FromPairsLookup(ps, k);
    var j := LastIndexOf(names, k);
    assert LastIndexOf(KeysOf(ps), k) == j;
    var vs := EnumValues(names, start, step);
    assert ps[j] == (names[j], vs[j]);
    assert vs[j] == IntVal(EnumValue(start, step, j));
    assert EnumDict(names, start, step) == FromPairs(ps);
  }

  lemma EnumDictOrder(names: seq<string>, start: int, step: int, a: nat, b: nat)
    requires a < b < |EnumDict(names, start, step)|
    ensures EnumDict(names, start, step)[a].0 in names && EnumDict(names, start, step)[b].0 in names
    ensures IndexOf(names, EnumDict(names, start, step)[a].0) < IndexOf(names, EnumDict(names, start, step)[b].0)
  {
    var ps := Zip(names, EnumValues(names, start, step));
    ZipParts(names, EnumValues(names, start, step));
    FromPairsOrder(ps, a, b);
  }

  lemma EnumDictKeys(names: seq<string>, start: int, step: int, k: string)
    ensures k in KeysOf(EnumDict(names, start, step)) <==> k in names
  {
    var ps := Zip(names, EnumValues(names, start, step));
    ZipParts(names, EnumValues(names, start, step));
    FromPairsKeys(ps, k);
  }

  /**
   * `enumcons` succeeds exactly when the split names are non-empty and each is a valid
   * field name; repeated names are merged by the dict, so they are not refused.
   */
  lemma EnumConsSucceeds(names: seq<string>, start: int, step: int, valFunc: Option<string -> Value>)
    ensures EnumCons(names, start, step, valFunc).Ok? <==>
      TupToNames(names) != [] && forall k :: k in TupToNames(names) ==> IsFieldName(k)
  {
    var ns := TupToNames(names);
    var d := EnumDict(ns, start, step);
    ConstantsSucceeds(DictArg(d), valFunc);
    forall k ensures k in KeysOf(d) <==> k in ns {
      EnumDictKeys(ns, start, step, k);
    }
    if ns != [] {
      assert ns[0] in KeysOf(d);
    }
  }

  /** Field i of an `enumcons` result without repeated names holds `start + step * i`. */
  lemma EnumConsValues(names: seq<string>, start: int, step: int, valFunc: Option<string -> Value>)
    requires Distinct(TupToNames(names))
    requires EnumCons(names, start, step, valFunc).Ok?
    ensures var c := EnumCons(names, start, step, valFunc).value;
      && c.names == TupToNames(names)
      && forall i :: 0 <= i < |c.vals| ==> c.vals[i] == IntVal(EnumValue(start, step, i))
  {
    var ns := TupToNames(names);
    EnumDictOfDistinct(ns, start, step);
    var c := EnumCons(names, start, step, valFunc).value;
    assert Iter(c) == EnumDict(ns, start, step);
  }

  /**
   * `enumcons("A B C", start = start, step = step)`: distinct valid names separated by
   * whitespace give one field per word, in order, the i-th holding `start + step * i`.
   */
  lemma EnumConsWords(ws: seq<string>, sep: string, start: int, step: int, valFunc: Option<string -> Value>)
    requires ws != [] && ValidFields(ws)
    requires |sep| > 0 && AllSpace(sep)
    ensures EnumCons([Join(ws, sep)], start, step, valFunc) == Ok(Make(ws, EnumValues(ws, start, step)))
  {
    FieldNamesAreTokens(ws);
    SplitOfJoin(ws, sep);
    TupToNamesSingle(Join(ws, sep));
    var ps := Zip(ws, EnumValues(ws, start, step));
    ZipParts(ws, EnumValues(ws, start, step));
    FromPairsOfDistinct(ps);
    RejectedFieldNone(ws, {});
  }

  const Letters: string := "A B C"

  /** `enumcons("A B C", start = 10, step = 5)` gives A = 10, B = 15, C = 20. */
  lemma EnumConsExample()
    ensures EnumCons([Letters], 10, 5, None).Ok?
    ensures EnumCons([Letters], 10, 5, None).value.names == ["A", "B", "C"]
    ensures EnumCons([Letters], 10, 5, None).value.vals == [IntVal(10), IntVal(15), IntVal(20)]
  {
    var ws := ["A", "B", "C"];
    LetterWords(ws);
    EnumConsWords(ws, " ", 10, 5, None);
  }

  // The literal comes in as a parameter so that the verifier does not unfold it.
  lemma LetterWords(ws: seq<string>)
    requires ws == ["A", "B", "C"]
    ensures ws != [] && ValidFields(ws) && Join(ws, " ") == Letters
    ensures EnumValues(ws, 10, 5) == [IntVal(10), IntVal(15), IntVal(20)]
  {
    KeywordsAreLong();
    assert Join(ws[2..], " ") == "C";
    assert Join(ws[1..], " ") == "B" + " " + "C";
    assert Join(ws, " ") == "A" + " " + ("B" + " " + "C");
  }

  const Repeated: string := "A B A"

  /** `enumcons("A B A")`: A keeps its first place and takes the value of its last. */
  lemma EnumConsRepeatedExample()
    ensures EnumCons([Repeated], 1, 1, None).Ok?
    ensures EnumCons([Repeated], 1, 1, None).value.names == ["A", "B"]
    ensures EnumCons([Repeated], 1, 1, None).value.vals == [IntVal(3), IntVal(2)]
  {
    var ws := ["A", "B", "A"];
    assert Join(ws, " ") == Repeated;
    FieldNamesAreTokens(ws);
    SplitOfJoin(ws, " ");
    TupToNamesSingle(Repeated);
    RepeatedDict(ws);
    MergedEntries();
    RejectedFieldNone(["A", "B"], {});
  }

  // The literal comes in as a parameter so that the verifier does not unfold it.
  lemma RepeatedDict(ws: seq<string>)
    requires ws == ["A", "B", "A"]
    ensures EnumDict(ws, 1, 1) == [("A", IntVal(3)), ("B", IntVal(2))]
  {
    RepeatedZip(ws);
    RepeatedFromPairs(Zip(ws, EnumValues(ws, 1, 1)));
  }

  // The literal comes in as a parameter so that the verifier does not unfold it.
  lemma RepeatedZip(ws: seq<string>)
    requires ws == ["A", "B", "A"]
    ensures Zip(ws, EnumValues(ws, 1, 1)) == [("A", IntVal(1)), ("B", IntVal(2)), ("A", IntVal(3))]
  {
    var vs := EnumValues(ws, 1, 1);
    assert vs == [IntVal(1), IntVal(2), IntVal(3)];
  }

  // The literal comes in as a parameter so that the verifier does not unfold it.
  lemma RepeatedFromPairs(ps: seq<(string, Value)>)
    requires ps == [("A", IntVal(1)), ("B", IntVal(2)), ("A", IntVal(3))]
    ensures FromPairs(ps) == [("A", IntVal(3)), ("B", IntVal(2))]
  {
    var p1, p2 := ps[..1], ps[..2];
    assert p1[..0] == [] && p2[..1] == p1 && ps[..2] == p2;
    RepeatedSteps();
    assert FromPairs(p1) == [("A", IntVal(1))];
    assert FromPairs(p2) == [("A", IntVal(1)), ("B", IntVal(2))];
  }

  /** The three assignments `A = 1`, `B = 2`, `A = 3`, one at a time. */
  lemma RepeatedSteps()
    ensures Set([], "A", IntVal(1)) == [("A", IntVal(1))]
    ensures Set([("A", IntVal(1))], "B", IntVal(2)) == [("A", IntVal(1)), ("B", IntVal(2))]
    ensures Set([("A", IntVal(1)), ("B", IntVal(2))], "A", IntVal(3)) == [("A", IntVal(3)), ("B", IntVal(2))]
  {
    assert KeysOf([("A", IntVal(1))]) == ["A"];
    assert KeysOf([("A", IntVal(1)), ("B", IntVal(2))]) == ["A", "B"];
  }

  lemma MergedEntries()
    ensures KeysOf([("A", IntVal(3)), ("B", IntVal(2))]) == ["A", "B"]
    ensures ValuesOf([("A", IntVal(3)), ("B", IntVal(2))]) == [IntVal(3), IntVal(2)]
    ensures ValidFields(["A", "B"])
  {
    KeywordsAreLong();
  }

  // ---------------------------------------------------------------------------------
  // The string argument as documented

  /**
   * `constants` as its documentation describes a string argument: split into words, as
   * `_tup_to_names((attrs,))` would; every other argument is handled as before.
   */
  function ConstantsIntended(attrs: Attrs, valFunc: Option<string -> Value>): (r: Result<Record, Error>)
    ensures r.Ok? ==> Valid(r.value)
    ensures attrs.StrArg? && r.Ok? ==> r.value.names == Split(attrs.s)
  {
    match attrs
    case StrArg(s) =>
      var names := TupToNames([s]);
      TupToNamesSingle(s);
      Finish(attrs, names, DeriveValues(names, valFunc))
    case _ => Constants(attrs, valFunc)
  }

  /** The correction changes nothing but the string argument. */
  lemma ConstantsIntendedAgrees(attrs: Attrs, valFunc: Option<string -> Value>)
    requires !attrs.StrArg?
    ensures ConstantsIntended(attrs, valFunc) == Constants(attrs, valFunc)
  {
  }

  /**
   * N distinct valid names joined by whitespace give N fields whose values are their
   * names, in order.
   */
  lemma ConstantsIntendedWords(ws: seq<string>, sep: string)
    requires ws != [] && ValidFields(ws)
    requires |sep| > 0 && AllSpace(sep)
    ensures ConstantsIntended(StrArg(Join(ws, sep)), None) == Ok(Make(ws, DeriveValues(ws, None)))
    ensures forall i :: 0 <= i < |ws| ==> Iter(Make(ws, DeriveValues(ws, None)))[i] == (ws[i], StrVal(ws[i]))
  {
    FieldNamesAreTokens(ws);
    SplitOfJoin(ws, sep);
    TupToNamesSingle(Join(ws, sep));
    RejectedFieldNone(ws, {});
  }
}
