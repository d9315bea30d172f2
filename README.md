# short-con: a verified model of the constant-collection factory

short-con builds immutable collections of named constants. You give it names, or
name/value pairs, and it returns a read-only record. The record has one field per
name and also answers the usual read-only mapping questions. This project models the
factory in `src/short_con/new.py` as pure Dafny and proves what the code does with each
kind of input.

- `constants(attrs, cls_name, val_func)` accepts a dict, a string, a list or a tuple.
  Any other argument is refused with `ERR_TYPE`. The input is turned into two parallel
  lists, `names` and `vals`. Empty `names` are refused with `ERR_NONE`. The field names
  then go to `make_dataclass`, which rejects a name that is not an identifier, that is
  a keyword, or that repeats an earlier one. The result is an instance of a frozen
  dataclass with `__iter__`, `__getitem__`, `__len__` and `__contains__` attached. It
  also gets `keys`, `values` and `get`, each only when no field already has that name.
- `cons(*names, **kws)` refuses positional and keyword arguments together
  (`ERR_MULTIPLE`). Otherwise it passes either the keyword dict or the whitespace-split
  names on to `constants`.
- `enumcons(*names, start=1, step=1, **kws)` gives the name at position i of the split
  names the value `start + step * i`, through a dict comprehension. A repeated name
  therefore keeps its first position and takes the value of its last one.
- `_tup_to_names(tup)` splits every string of a tuple on whitespace and concatenates
  the pieces in order.

Modules:

- `wrappers.dfy` (`Wrappers`): the `Option` and `Result` datatypes.
- `pystr.dfy` (`PyStr`): `str.isspace()` over Python's whitespace code points, and
  `str.split()` with no separator.
- `pydict.dfy` (`PyDict`): Python's insertion-ordered `dict` with string keys. This
  covers item assignment, lookup, and `dict(pairs)`, which is what a dict comprehension
  builds.
- `collection.dfy` (`Collection`): the field-name checks of `make_dataclass` and the
  generated record. The record is a value: its names, its values, and one flag per
  optional method. Its `__dict__` is the dict the dataclass `__init__` fills in order.
- `shortcon.dfy` (`ShortCon`): `constants`, `cons`, `enumcons` and `_tup_to_names`, with
  the lemmas about them.

Errors are values. A `ShortConError` is `ErrMultiple`, `ErrNone` or `ErrType`, and each
carries the payload the code attaches to it. A name that `make_dataclass` rejects is
`FieldRejected(name, reason)`. `val_func` is a Dafny function value, or `None` when it
is not given. `enumcons` has no default arguments in Dafny: its defaults are the call
with `start = 1` and `step = 1`.

## Model

| member | source | states |
|---|---|---|
| PyStr.Split | src/short_con/new.py:111 | every token `str.split()` returns is non-empty and contains no whitespace |
| PyStr.SplitKeepsNonSpace | src/short_con/new.py:111 | concatenating the tokens gives exactly the non-whitespace characters of the string, in order |
| PyStr.SplitEmptyIffBlank | src/short_con/new.py:111 | splitting gives no tokens if and only if the string is empty or all whitespace |
| PyStr.SplitSkipsLeadingSpace | src/short_con/new.py:111 | leading whitespace does not change the tokens |
| PyStr.SplitToken | src/short_con/new.py:111 | a token followed by whitespace or the end of the string is split off whole |
| PyStr.SplitJoin | src/short_con/new.py:111 | round trip: tokens joined by a whitespace separator, with any whitespace before and after, split back into the same tokens |
| PyStr.SplitOfJoin | src/short_con/new.py:111 | the same round trip without surrounding whitespace |
| PyStr.SplitChar | src/short_con/new.py:110-111 | a one-character string splits into itself, or into nothing when the character is whitespace |
| PyDict.Lookup | src/short_con/new.py:90 | `d.get(k)` is present exactly when `k` is a key, and then it is the value stored at that key |
| PyDict.Set | src/short_con/new.py:41-44 | assignment keeps the key order when the key exists and appends the key when it is new |
| PyDict.SetLookup | src/short_con/new.py:41-44 | after `d[k] = v`, `k` holds `v` and every other key holds its old value |
| PyDict.FromPairs | src/short_con/new.py:41-44 | definition of `dict(pairs)`: the pairs are assigned in order; `PyDict.FromPairsKeys`, `PyDict.FromPairsLookup`, `PyDict.FromPairsOrder` and `PyDict.FromPairsOfDistinct` characterise it |
| PyDict.FromPairsKeys | src/short_con/new.py:41-44 | a key is in the built dict exactly when some pair has it |
| PyDict.FromPairsLookup | src/short_con/new.py:41-44 | a repeated key holds the value of its last pair |
| PyDict.FromPairsOrder | src/short_con/new.py:41-44 | the entries appear in the order in which their keys first occur among the pairs |
| PyDict.FromPairsOfDistinct | src/short_con/new.py:41-44 | with distinct keys the dict holds the pairs exactly as given |
| Collection.RejectedField | src/short_con/new.py:82-86 | the name `make_dataclass` rejects is one of the names; its reason is true of it (not an identifier, a keyword, or a repeat of an earlier name) |
| Collection.RejectedFieldNone | src/short_con/new.py:82-86 | `make_dataclass` rejects nothing if and only if all names are identifiers, none is a keyword, and none repeats |
| Collection.RejectedFieldFirstRepeat | src/short_con/new.py:82-86 | when valid distinct names are followed by a repeat, that repeated name is the one reported, as a duplicate |
| Collection.Make | src/short_con/new.py:82-103 | the built record has the given names and values, and it satisfies the invariant: equal lengths, at least one field, accepted names, and each of `keys`/`values`/`get` attached exactly when no field has its name |
| Collection.InstanceDict | src/short_con/new.py:89-100 | definition of the instance `__dict__` that the lambdas read: the fields assigned in declaration order; `Collection.InstanceDictOfValid` characterises it |
| Collection.InstanceDictOfValid | src/short_con/new.py:89-103 | the instance `__dict__` holds exactly the fields in declaration order, with their values |
| Collection.Iter | src/short_con/new.py:89 | iteration yields the pairs `(names[i], vals[i])` in order, one per field |
| Collection.GetItem | src/short_con/new.py:90 | `c[k]` succeeds if and only if `k` is a field, and returns that field's value; otherwise it raises `KeyError(k)` |
| Collection.Len | src/short_con/new.py:91 | `len(c)` is the number of fields, which is positive |
| Collection.Contains | src/short_con/new.py:92 | `k in c` holds if and only if `k` is a field name |
| Collection.Keys | src/short_con/new.py:95-96 | `keys()` exists only without a field named `keys`, and it returns the names in order |
| Collection.Values | src/short_con/new.py:97-98 | `values()` exists only without a field named `values`, and it returns the values aligned with `keys()` |
| Collection.Get | src/short_con/new.py:99-100 | `get(k, default)` returns the field's value, or `default` when `k` is not a field (`None` when no default is given) |
| Collection.Attribute | src/short_con/new.py:94-100 | `c.a` finds a field first; otherwise it finds `keys`, `values` or `get` exactly when `a` is that name, so a colliding field keeps the user's value |
| ShortCon.TupToNames | src/short_con/new.py:105-112 | every name `_tup_to_names` returns is non-empty and free of whitespace |
| ShortCon.TupToNamesAppend | src/short_con/new.py:108-112 | splitting a concatenation of tuples gives the concatenation of the names |
| ShortCon.TupToNamesKeepsNonSpace | src/short_con/new.py:105-112 | the names, joined, are exactly the non-whitespace characters of the strings, in order |
| ShortCon.TupToNamesEmptyIffBlank | src/short_con/new.py:105-112 | no names come back if and only if every string is empty or all whitespace |
| ShortCon.TupToNamesOfChars | src/short_con/new.py:65 | a string passed where a tuple is expected gives one name per non-whitespace character |
| ShortCon.Message | src/short_con/new.py:8-10 | definition: the message text of each `ShortConError` (`ERR_MULTIPLE`, `ERR_NONE`, `ERR_TYPE`) |
| ShortCon.Chars | src/short_con/new.py:110 | definition: iterating a `str` yields its characters, each a one-character string; `ShortCon.TupToNamesOfChars` and `ShortCon.ConstantsStrNames` state what follows from it |
| ShortCon.DeriveValues | src/short_con/new.py:71-75 | one value per name: `val_func(nm)` for each name, or the names themselves; `ShortCon.Constants` states the values it gives field by field |
| ShortCon.Finish | src/short_con/new.py:77-103 | no names gives exactly `ERR_NONE` carrying the input; success exactly when there are names and `make_dataclass` rejects none; a success is a valid record holding the given names and values; a rejected name is one of the names |
| ShortCon.Constants | src/short_con/new.py:47-103 | any other type gives `ERR_TYPE` and nothing else does; `ERR_NONE` carries the input; a dict becomes a record whose iteration is the dict; a list or tuple keeps its names; values are the names, or `val_func` of them; every record built is valid |
| ShortCon.ConstantsEmpty | src/short_con/new.py:78-79 | an empty dict, an empty list or a blank string is refused with `ERR_NONE` carrying the input |
| ShortCon.ConstantsSucceeds | src/short_con/new.py:58-86 | the call succeeds if and only if there are names and `make_dataclass` accepts them; for a dict only the form of the keys matters |
| ShortCon.ConstantsStrNames | src/short_con/new.py:64-65 | a string argument gives one field per non-whitespace character |
| ShortCon.ConstantsDictIgnoresValFunc | src/short_con/new.py:58-61 | `val_func` has no effect on a dict argument |
| ShortCon.ConstantsFromItems | src/short_con/new.py:58-61 | round trip: building from a record's `(name, value)` pairs gives the same record |
| ShortCon.StrArgSplitsIntoChars | src/short_con/new.py:64-65 | `constants("KING QUEEN")` asks for the fields K, I, N, G, Q, U, E, E, N and is rejected at the second E |
| ShortCon.Cons | src/short_con/new.py:15-29 | names and keywords together give `ERR_MULTIPLE`; neither gives `ERR_NONE` for an empty list; keywords alone give a record whose iteration is that dict; names alone give the split names with themselves as values |
| ShortCon.ConsWords | src/short_con/new.py:15-29 | distinct valid names joined by whitespace give one field per word, in order, each holding its own name |
| ShortCon.ConsExample | src/short_con/new.py:23-29 | `cons("KING QUEEN ROOK")` gives fields KING, QUEEN and ROOK holding their names |
| ShortCon.ChessRecord | src/short_con/new.py:89-100 | on that record, `c["ROOK"]` is "ROOK", `len` is 3, "QUEEN" is in it, and `get("PAWN", 42)` is 42 |
| ShortCon.EnumCons | src/short_con/new.py:31-45 | `enumcons` never raises `ERR_MULTIPLE` or `ERR_TYPE`, and any record it builds is valid |
| ShortCon.EnumDict | src/short_con/new.py:41-44 | definition of the dict comprehension over `enumerate(names)`; `ShortCon.EnumDictOfDistinct`, `ShortCon.EnumDictRepeated`, `ShortCon.EnumDictOrder` and `ShortCon.EnumDictKeys` characterise it |
| ShortCon.EnumDictOfDistinct | src/short_con/new.py:41-44 | without repeats, entry i is the i-th name with value `start + step * i` |
| ShortCon.EnumDictRepeated | src/short_con/new.py:41-44 | a repeated name holds `start + step * j`, with j its last position |
| ShortCon.EnumDictOrder | src/short_con/new.py:41-44 | the entries keep the order in which the names first occur |
| ShortCon.EnumDictKeys | src/short_con/new.py:41-44 | a name is a key exactly when it is among the split names |
| ShortCon.EnumConsSucceeds | src/short_con/new.py:31-45 | `enumcons` succeeds if and only if there are names and each is a valid field name; repeats are merged, not refused |
| ShortCon.EnumConsValues | src/short_con/new.py:40-45 | without repeats, the fields are the split names and field i holds `start + step * i` |
| ShortCon.EnumConsWords | src/short_con/new.py:31-45 | distinct valid names joined by whitespace give those fields, in order, holding `start + step * i` |
| ShortCon.EnumConsExample | src/short_con/new.py:31-45 | `enumcons("A B C", start=10, step=5)` gives A = 10, B = 15, C = 20 |
| ShortCon.EnumConsRepeatedExample | src/short_con/new.py:41-44 | `enumcons("A B A")` gives the fields A and B, with A = 3 and B = 2 |
| ShortCon.ConstantsIntended | src/short_con/new.py:52-65 | the corrected string case: the fields are the whitespace-separated words of the string, and every record built is valid |
| ShortCon.ConstantsIntendedAgrees | src/short_con/new.py:58-69 | the correction changes the string argument only |
| ShortCon.ConstantsIntendedWords | src/short_con/new.py:52-75 | corrected: N distinct valid words joined by whitespace give N fields whose iteration is the pairs `(word, word)` in order |

## Left out

- The class name (`cls_name`, new.py:83) only labels the generated class and is not modelled.
- The generated class is modelled as a value with three flags. Monkey-patching lambdas onto a class, `frozen=True`, and the instance's identity and `repr` are not modelled.
- Attribute lookup covers the fields and `keys`, `values` and `get`. Other class attributes (the dunder methods and dataclass internals) are not modelled, and neither are fields named after them.
- `ShortConError` comes from the external `kwexception` package. It is modelled as the error tag plus the payload it carries; how it formats or stores them is not modelled.
- `Collection.IsIdentifier` accepts only ASCII identifiers. Python's `str.isidentifier()` also accepts non-ASCII letters; names using them are rejected here as `NotIdentifier`.
- List and tuple arguments are modelled as lists of strings. Non-string elements reach `make_dataclass`, which raises a TypeError, and this is not modelled. Field specifications given as `(name, type)` tuples are not modelled either.
- Dict keys are strings, as `cons(**kws)` always gives. Non-string keys of a dict passed to `constants` directly are not modelled.
- `val_func` is a total function. Exceptions it raises, and side effects it has, are not modelled. Truthiness is modelled as given or not given.
- `ShortCon.EnumCons` passes on only `val_func` from its keyword arguments. `cls_name` has no effect, and an unknown keyword makes Python raise a TypeError, which is not modelled.
- Values are modelled as `None`, strings, integers or opaque objects (`Value`). Python's arbitrary objects and equality on them are not modelled.
- `ShortCon.Cons` takes its positional arguments as strings. A non-string argument, such as `cons(1)` or `cons(['A'])`, makes `s.split()` at new.py:111 raise AttributeError, and this is not modelled.
- `ShortCon.EnumCons` takes its positional arguments as strings; a non-string one raises AttributeError through `_tup_to_names` at new.py:40, which is not modelled.
- `ShortCon.EnumCons` takes `start` and `step` as integers. new.py:42 applies `+` and `*` to whatever is given, so floats (or other operand types) give other values; only integers are modelled.
- `ShortCon.TupToNames` takes a sequence of strings. An element without a `split` method raises AttributeError at new.py:111, which is not modelled.
- `Collection.GetItem` takes a string key. `c[0]` raises `KeyError(0)` and an unhashable key raises TypeError at new.py:90; neither is modelled.
- `Collection.Contains` takes a string key. A hashable non-string key gives `False`, and an unhashable one such as `[]` raises TypeError at new.py:92; neither is modelled.
- `Collection.Get` takes a string key. A hashable non-string key gives the default, and an unhashable one raises TypeError at new.py:100; neither is modelled.
- `tasks.py` and `setup.py` (build and release scripts) are not part of this model. Neither are the tests, which call an API in `short_con.main` that is not part of this model.

## Findings

| source | as written | input that shows it | evidently intended | confidence | as-written member | corrected member |
|---|---|---|---|---|---|---|
| src/short_con/new.py:64-65 | a `str` argument goes straight to `_tup_to_names`, which iterates it, so every non-whitespace character becomes a field name | `constants("KING QUEEN")` asks for K, I, N, G, Q, U, E, E, N; `make_dataclass` rejects the repeated E | split the string into words, as the docstring at new.py:52 says ("string of names"), giving the fields KING and QUEEN | not executed | ShortCon.StrArgSplitsIntoChars | ShortCon.ConstantsIntended |

`cons` and `enumcons` always pass a list or a dict, so they never reach the string case
(`ShortCon.ConstantsIntendedAgrees`). `ShortCon.ConstantsIntendedWords` proves the
corrected behaviour: N distinct valid words give N fields, each holding its own name, in
order.
