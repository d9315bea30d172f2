/**
 * The read-only record that `constants` returns (new.py:82-103): a frozen dataclass with
 * one field per name, holding the values in order, plus iteration, `[]`, `len`, `in` and,
 * when no field already uses the name, `keys()`, `values()` and `get()`.
 *
 * The dynamically generated class is modelled as a value: the names, the values, and one
 * flag per optional method recording whether it was attached.
 */
module Collection {
  import opened Wrappers
  import opened PyDict

  /** A Python value held by a field: None, a string, an int, or any other object. */
  datatype Value = NoneVal | StrVal(s: string) | IntVal(n: int) | ObjVal(id: nat)

  /** Why `make_dataclass` rejects a field name (each is a TypeError there). */
  datatype Reason = NotIdentifier | Keyword | Duplicated

  /** Python's reserved words (`keyword.kwlist`). */
  const Keywords: set<string> := {
    "False", "None", "True", "and", "as", "assert", "async", "await", "break",
    "class", "continue", "def", "del", "elif", "else", "except", "finally", "for",
    "from", "global", "if", "import", "in", "is", "lambda", "nonlocal", "not", "or",
    "pass", "raise", "return", "try", "while", "with", "yield"
  }

  /** Every keyword has at least two letters, so one-letter identifiers are field names. */
  lemma KeywordsAreLong()
    ensures forall k :: k in Keywords ==> |k| >= 2
  {
  }

  predicate IsIdentStart(c: char) {
    'a' <= c <= 'z' || 'A' <= c <= 'Z' || c == '_'
  }

  predicate IsIdentChar(c: char) {
    IsIdentStart(c) || '0' <= c <= '9'
  }

  /** `str.isidentifier()`, restricted to ASCII. */
  predicate IsIdentifier(n: string) {
    |n| > 0 && IsIdentStart(n[0]) && forall i :: 1 <= i < |n| ==> IsIdentChar(n[i])
  }

  predicate IsFieldName(n: string) {
    IsIdentifier(n) && n !in Keywords
  }

  /** Field names that `make_dataclass` accepts: identifiers, not keywords, no repeats. */
  predicate ValidFields(names: seq<string>) {
    (forall i :: 0 <= i < |names| ==> IsFieldName(names[i])) && Distinct(names)
  }

  /**
   * The first field name that `make_dataclass` rejects, checking the names in order
   * and each name for validity, then for being a keyword, then for having been seen.
   */
  function RejectedField(names: seq<string>, seen: set<string>): (r: Option<(string, Reason)>)
    ensures r.Some? ==> r.value.0 in names
    ensures r.Some? && r.value.1 == NotIdentifier ==> !IsIdentifier(r.value.0)
    ensures r.Some? && r.value.1 == Keyword ==> r.value.0 in Keywords
    ensures r.Some? && r.value.1 == Duplicated ==>
      r.value.0 in seen || exists i, j :: 0 <= i < j < |names| && names[i] == names[j] == r.value.0
  {
    if names == [] then None
    else
      var n := names[0];
      if !IsIdentifier(n) then Some((n, NotIdentifier))
      else if n in Keywords then Some((n, Keyword))
      else if n in seen then Some((n, Duplicated))
      else
        var r := RejectedField(names[1..], seen + {n});
        if r.Some? && r.value.1 == Duplicated && r.value.0 == n then
          var j := IndexOf(names[1..], n);
          assert names[0] == names[j + 1] == n;
          r
        else
          r
  }

  /** `make_dataclass` accepts the names exactly when they are valid, unseen and distinct. */
  lemma {:induction false} RejectedFieldNone(names: seq<string>, seen: set<string>)
    ensures RejectedField(names, seen) == None <==>
      ValidFields(names) && forall i :: 0 <= i < |names| ==> names[i] !in seen
    decreases |names|
  {
    if names != [] {
      var n := names[0];
      RejectedFieldNone(names[1..], seen + {n});
      if RejectedField(names, seen) == None {
        assert IsFieldName(n) && n !in seen;
        forall i, j | 0 <= i < j < |names| ensures names[i] != names[j] {
          if i > 0 {
            assert names[1..][i - 1] != names[1..][j - 1];
          } else {
            assert names[1..][j - 1] !in seen + {n};
          }
        }
      }
    }
  }

  /** `make_dataclass` reports the first name that repeats an earlier one. */
  lemma {:induction false} RejectedFieldFirstRepeat(names: seq<string>, seen: set<string>, j: nat)
    requires j < |names|
    requires forall i :: 0 <= i <= j ==> IsFieldName(names[i])
    requires forall i :: 0 <= i < j ==> names[i] !in seen
    requires Distinct(names[..j])
    requires names[j] in seen || names[j] in names[..j]
    ensures RejectedField(names, seen) == Some((names[j], Duplicated))
    decreases j
  {
    if j > 0 {
      var rest := names[1..];
      assert rest[..j - 1] == names[1..j];
      forall i | 0 <= i < j - 1 ensures rest[i] !in seen + {names[0]} {
        assert names[..j][0] != names[..j][i + 1];
      }
      assert names[j] in seen + {names[0]} || names[j] in rest[..j - 1] by {
        if names[j] !in seen && names[j] != names[0] {
          var i :| 0 <= i < j && names[..j][i] == names[j];
          assert rest[..j - 1][i - 1] == names[j];
        }
      }
      RejectedFieldFirstRepeat(rest, seen + {names[0]}, j - 1);
    }
  }

  /**
   * An instance of the generated class: `names` are its fields in declaration order and
   * `vals` their values; each flag says whether that method was attached to the class.
   */
  datatype Record = Record(
    names: seq<string>,
    vals: seq<Value>,
    hasKeys: bool,
    hasValues: bool,
    hasGet: bool)

  /**
   * What every instance satisfies: one value per field, at least one field, field names
   * that `make_dataclass` accepted, and each optional method attached exactly when no
   * field has its name.
   */
  predicate Valid(c: Record) {
    && |c.names| == |c.vals|
    && |c.names| > 0
    && ValidFields(c.names)
    && c.hasKeys == ("keys" !in c.names)
    && c.hasValues == ("values" !in c.names)
    && c.hasGet == ("get" !in c.names)
  }

  /** `make_dataclass(fields = names, frozen = True)`, the attachments, and `cls(*vals)`. */
  function Make(names: seq<string>, vals: seq<Value>): (c: Record)
    requires |names| == |vals| && names != [] && ValidFields(names)
    ensures Valid(c) && c.names == names && c.vals == vals
  {
    Record(names, vals, "keys" !in names, "values" !in names, "get" !in names)
  }

  /** `self.__dict__`: the dataclass `__init__` assigns the fields in order. */
  function InstanceDict(c: Record): Dict<Value>
    requires |c.names| == |c.vals|
  {
    FromPairs(Zip(c.names, c.vals))
  }

  /** The instance dict holds exactly the fields, in order, with their values. */
  lemma InstanceDictOfValid(c: Record)
    requires Valid(c)
    ensures InstanceDict(c) == Zip(c.names, c.vals)
    ensures KeysOf(InstanceDict(c)) == c.names && ValuesOf(InstanceDict(c)) == c.vals
  {
    ZipParts(c.names, c.vals);
    FromPairsOfDistinct(Zip(c.names, c.vals));
  }

  /** `iter(c)`: the (name, value) pairs in declaration order. */
  function Iter(c: Record): (items: seq<(string, Value)>)
    requires Valid(c)
    ensures |items| == |c.names|
    ensures forall i :: 0 <= i < |items| ==> items[i] == (c.names[i], c.vals[i])
  {
    InstanceDictOfValid(c);
    InstanceDict(c)
  }

  datatype KeyError = KeyError(key: string)

  /** `c[k]`: the value of field `k`, or KeyError when there is no such field. */
  function GetItem(c: Record, k: string): (r: Result<Value, KeyError>)
    requires Valid(c)
    ensures r.Ok? <==> k in c.names
    ensures r.Err? ==> r.error == KeyError(k)
    ensures forall i :: 0 <= i < |c.names| && c.names[i] == k ==> r == Ok(c.vals[i])
  {
    InstanceDictOfValid(c);
    match Lookup(InstanceDict(c), k)
    case Some(v) => Ok(v)
    case None => Err(KeyError(k))
  }

  /** `len(c)`: the number of fields. */
  function Len(c: Record): (n: nat)
    requires Valid(c)
    ensures n == |c.names| && n == |c.vals| && n > 0
  {
    InstanceDictOfValid(c);
    |InstanceDict(c)|
  }

  /** `k in c`: whether `k` names a field. */
  function Contains(c: Record, k: string): (b: bool)
    requires Valid(c)
    ensures b <==> exists i :: 0 <= i < |c.names| && c.names[i] == k
  {
    InstanceDictOfValid(c);
    k in KeysOf(InstanceDict(c))
  }

  /** `c.keys()`, present only when no field is named `keys`: the names, in order. */
  function Keys(c: Record): (ks: seq<string>)
    requires Valid(c) && c.hasKeys
    ensures ks == c.names && "keys" !in ks
  {
    InstanceDictOfValid(c);
    KeysOf(InstanceDict(c))
  }

  /** `c.values()`, present only when no field is named `values`: the values, aligned with `keys()`. */
  function Values(c: Record): (vs: seq<Value>)
    requires Valid(c) && c.hasValues
    ensures vs == c.vals && |vs| == |c.names|
  {
    InstanceDictOfValid(c);
    ValuesOf(InstanceDict(c))
  }

  /**
   * `c.get(k, default)`, present only when no field is named `get`: the value of field
   * `k`, or `default` (`c.get(k)` passes NoneVal). It never fails.
   */
  function Get(c: Record, k: string, default: Value): (v: Value)
    requires Valid(c) && c.hasGet
    ensures k !in c.names ==> v == default
    ensures forall i :: 0 <= i < |c.names| && c.names[i] == k ==> v == c.vals[i]
  {
    InstanceDictOfValid(c);
    Lookup(InstanceDict(c), k).GetOr(default)
  }

  /** What attribute access `c.a` finds, for field names and the three optional methods. */
  datatype Attr = FieldValue(v: Value) | KeysMethod | ValuesMethod | GetMethod | NoAttr

  /**
   * `c.a`: a field of the instance is found first; otherwise the class supplies
   * `keys`, `values` or `get` if they were attached.
   */
  function Attribute(c: Record, a: string): (r: Attr)
    requires Valid(c)
    ensures forall i :: 0 <= i < |c.names| && c.names[i] == a ==> r == FieldValue(c.vals[i])
    ensures a !in c.names ==>
      && (r == KeysMethod <==> a == "keys")
      && (r == ValuesMethod <==> a == "values")
      && (r == GetMethod <==> a == "get")
      && (r == NoAttr <==> a != "keys" && a != "values" && a != "get")
  {
    InstanceDictOfValid(c);
    match Lookup(InstanceDict(c), a)
    case Some(v) => FieldValue(v)
    case None =>
      if a == "keys" && c.hasKeys then KeysMethod
      else if a == "values" && c.hasValues then ValuesMethod
      else if a == "get" && c.hasGet then GetMethod
      else NoAttr
  }
}
