/**
  The filter parser of handlers/FilterHandler.js: it keeps the `fields`,
  `filter`, `sort` and `limit` entries of a request's filter block, turns a
  field string into a list of names, turns filter and sort rules into
  `{field, mode, is_mask}` objects, and offers passes that rewrite the stored
  lists in place through a callback.
 */
module FilterHandler {
  import opened Wrappers
  import opened OrderedMap
  import opened JsValue

  const SORT_ASCENDING: string := "ASC"
  const SORT_DESCENDING: string := "DESC"

  // ---------------------------------------------------------------- field strings

  /** A character the regular expression class `\s` matches. */
  predicate IsJsSpace(c: char) {
    || c == ' ' || c == '\t' || c == '\n' || c == '\U{000B}' || c == '\U{000C}' || c == '\r'
    || c == '\U{00A0}' || c == '\U{1680}' || ('\U{2000}' <= c <= '\U{200A}')
    || c == '\U{2028}' || c == '\U{2029}' || c == '\U{202F}' || c == '\U{205F}'
    || c == '\U{3000}' || c == '\U{FEFF}'
  }

  /** `s.replace(/\s+/g, "")`: the characters of `s` that are not white space, in order. */
  function RemoveSpaces(s: string): (r: string)
    ensures |r| <= |s|
    ensures forall i :: 0 <= i < |r| ==> !IsJsSpace(r[i]) && r[i] in s
    ensures forall i :: 0 <= i < |s| && !IsJsSpace(s[i]) ==> s[i] in r
  {
    if s == [] then []
    else
      var last := s[|s| - 1];
      var rest := RemoveSpaces(s[..|s| - 1]);
      assert forall c :: c in s[..|s| - 1] ==> c in s;
      rest + (if IsJsSpace(last) then [] else [last])
  }

  /** Removing white space from a string without any leaves it as it is. */
  lemma {:induction false} RemoveSpacesIdentity(s: string)
    requires forall i :: 0 <= i < |s| ==> !IsJsSpace(s[i])
    ensures RemoveSpaces(s) == s
  {
    if s != [] {
      RemoveSpacesIdentity(s[..|s| - 1]);
      assert s[..|s| - 1] + [s[|s| - 1]] == s;
    }
  }

  /** A string of white space only is removed entirely. */
  lemma {:induction false} RemoveSpacesAllSpace(s: string)
    requires forall i :: 0 <= i < |s| ==> IsJsSpace(s[i])
    ensures RemoveSpaces(s) == ""
  {
    if s != [] {
      RemoveSpacesAllSpace(s[..|s| - 1]);
    }
  }

  /**
    White space is removed piece by piece: with `RemoveSpacesIdentity` and
    `RemoveSpacesAllSpace`, the result is exactly the input's non-white-space
    characters, in order.
   */
  lemma {:induction false} RemoveSpacesAppend(a: string, b: string)
    ensures RemoveSpaces(a + b) == RemoveSpaces(a) + RemoveSpaces(b)
  {
    if b != [] {
      var n := |b| - 1;
      assert (a + b)[..|a + b| - 1] == a + b[..n];
      RemoveSpacesAppend(a, b[..n]);
    } else {
      assert a + b == a;
    }
  }

  /** `s.split(sep)` for a one-character separator. */
  function Split(s: string, sep: char): (parts: seq<string>)
    ensures |parts| >= 1
  {
    if s == [] then [""]
    else
      var init := Split(s[..|s| - 1], sep);
      var c := s[|s| - 1];
      if c == sep then init + [""]
      else init[..|init| - 1] + [init[|init| - 1] + [c]]
  }

  /** `parts.join(sep)`. */
  function Join(parts: seq<string>, sep: char): string {
    if parts == [] then ""
    else if |parts| == 1 then parts[0]
    else Join(parts[..|parts| - 1], sep) + [sep] + parts[|parts| - 1]
  }

  /** No piece of a split contains the separator. */
  lemma {:induction false} SplitPieces(s: string, sep: char)
    ensures forall i :: 0 <= i < |Split(s, sep)| ==> sep !in Split(s, sep)[i]
  {
    if s != [] {
      var init := Split(s[..|s| - 1], sep);
      SplitPieces(s[..|s| - 1], sep);
      var parts := Split(s, sep);
      forall i | 0 <= i < |parts| ensures sep !in parts[i] {
        if i < |init| - 1 {
          assert parts[i] == init[i];
        } else if s[|s| - 1] != sep && i == |init| - 1 {
          assert parts[i] == init[i] + [s[|s| - 1]];
        }
      }
    }
  }

  /** Joining the pieces of a split with the separator gives back the string. */
  lemma {:induction false} JoinSplit(s: string, sep: char)
    ensures Join(Split(s, sep), sep) == s
  {
    if s != [] {
      var n := |s| - 1;
      var init := Split(s[..n], sep);
      JoinSplit(s[..n], sep);
      assert s[..n] + [s[n]] == s;
      if s[n] == sep {
        assert Split(s, sep) == init + [""];
        JoinEmptyLast(init, sep);
      } else {
        assert Split(s, sep) == init[..|init| - 1] + [init[|init| - 1] + [s[n]]];
        JoinLast(init, sep, s[n]);
      }
    }
  }

  /** Adding an empty last piece adds one separator to the joined string. */
  lemma JoinEmptyLast(parts: seq<string>, sep: char)
    requires |parts| >= 1
    ensures Join(parts + [""], sep) == Join(parts, sep) + [sep]
  {
    var q := parts + [""];
    assert q[..|q| - 1] == parts;
  }

  /** Extending the last piece extends the joined string. */
  lemma JoinLast(parts: seq<string>, sep: char, c: char)
    requires |parts| >= 1
    ensures Join(parts[..|parts| - 1] + [parts[|parts| - 1] + [c]], sep) == Join(parts, sep) + [c]
  {
    var q := parts[..|parts| - 1] + [parts[|parts| - 1] + [c]];
    assert q[..|q| - 1] == parts[..|parts| - 1];
    if |parts| > 1 {
      assert Join(q, sep) == Join(parts[..|parts| - 1], sep) + [sep] + (parts[|parts| - 1] + [c]);
    }
  }

  /** Splitting pieces free of the separator, joined by it, gives back the pieces. */
  lemma {:induction false} SplitJoin(parts: seq<string>, sep: char)
    requires |parts| >= 1
    requires forall i :: 0 <= i < |parts| ==> sep !in parts[i]
    ensures Split(Join(parts, sep), sep) == parts
  {
    if |parts| == 1 {
      SplitPiece(parts[0], sep);
    } else {
      var init := parts[..|parts| - 1];
      var last := parts[|parts| - 1];
      SplitJoin(init, sep);
      SplitAfter(Join(init, sep), sep, last);
    }
  }

  /** A string without the separator splits into itself. */
  lemma {:induction false} SplitPiece(s: string, sep: char)
    requires sep !in s
    ensures Split(s, sep) == [s]
  {
    if s != [] {
      assert sep !in s[..|s| - 1];
      SplitPiece(s[..|s| - 1], sep);
      assert s[..|s| - 1] + [s[|s| - 1]] == s;
    }
  }

  /** Appending the separator and a piece free of it adds that piece to the split. */
  lemma {:induction false} SplitAfter(s: string, sep: char, piece: string)
    requires sep !in piece
    ensures Split(s + [sep] + piece, sep) == Split(s, sep) + [piece]
    decreases |piece|
  {
    var t := s + [sep] + piece;
    if piece == [] {
      assert t[..|t| - 1] == s;
    } else {
      var n := |piece| - 1;
      assert sep !in piece[..n];
      SplitAfter(s, sep, piece[..n]);
      assert t[..|t| - 1] == s + [sep] + piece[..n];
      assert piece[..n] + [piece[n]] == piece;
    }
  }

  /**
    The `fields` entry after parsing: a string loses its white space and is
    split on commas into an array of names; any other value is kept.
   */
  function FieldsValue(data: Value): Value {
    if data.Str? then ArrayOf(NameValues(Split(RemoveSpaces(data.s), ',')))
    else data
  }

  function NameValues(names: seq<string>): (vs: seq<Value>)
    ensures |vs| == |names| && forall i :: 0 <= i < |names| ==> vs[i] == Str(names[i])
  {
    seq(|names|, i requires 0 <= i < |names| => Str(names[i]))
  }

  /**
    A field string becomes as many names as it has commas plus one, none
    with white space or commas, which joined by commas give the string
    without its white space.
   */
  lemma FieldNames(s: string)
    ensures var names := Split(RemoveSpaces(s), ',');
      && FieldsValue(Str(s)) == ArrayOf(NameValues(names))
      && Join(names, ',') == RemoveSpaces(s)
      && forall i :: 0 <= i < |names| ==> ',' !in names[i] && forall j :: 0 <= j < |names[i]| ==> !IsJsSpace(names[i][j])
  {
    var r := RemoveSpaces(s);
    var names := Split(r, ',');
    JoinSplit(r, ',');
    SplitPieces(r, ',');
    forall i, j | 0 <= i < |names| && 0 <= j < |names[i]| ensures !IsJsSpace(names[i][j]) {
      PieceChars(r, ',', i, j);
    }
  }

  /** Every character of a piece of a split is a character of the string. */
  lemma {:induction false} PieceChars(s: string, sep: char, i: nat, j: nat)
    requires i < |Split(s, sep)| && j < |Split(s, sep)[i]|
    ensures Split(s, sep)[i][j] in s
  {
    var n := |s| - 1;
    var init := Split(s[..n], sep);
    if s[n] == sep {
      PieceChars(s[..n], sep, i, j);
    } else if i < |init| - 1 {
      PieceChars(s[..n], sep, i, j);
    } else if j < |init[|init| - 1]| {
      PieceChars(s[..n], sep, i, j);
    }
  }

  // ---------------------------------------------------------------- filter rules

  /** `mode != "ASC" && mode != "DESC"` under loose equality. */
  predicate IsMask(mode: Value) {
    !LooseEqualsWord(mode, SORT_ASCENDING) && !LooseEqualsWord(mode, SORT_DESCENDING)
  }

  /** The object `{field, mode, is_mask}` built for one rule. */
  function RuleObject(field: Value, mode: Value): Value {
    Obj(false, [("field", field), ("mode", mode), ("is_mask", Bool(IsMask(mode)))])
  }

  /** The parsed form of rule `filter`, which is not null or undefined. */
  function RuleFor(filter: Value): Value {
    RuleObject(Prop(filter, "field").GetOr(Undefined), Prop(filter, "mode").GetOr(Undefined))
  }

  /**
    `data.length` as the loop of `_parseFilter` reads it: None where reading
    it throws; an object that is not an array counts only a numeric `length`.
   */
  function Length(data: Value): Option<nat> {
    match data
    case Undefined => None
    case Null => None
    case Str(s) => Some(|s|)
    case Obj(isArray, ps) =>
      if isArray then Some(ArrayLength(ps))
      else
        var length: Option<Value> := Get(ps, "length");
        if length.Some? && length.value.Num? && length.value.n > 0 then Some(length.value.n) else Some(0)
    case _ => Some(0)
  }

  /** `data[i]`, for `data` not null or undefined. */
  function Item(data: Value, i: nat): Value
    requires !IsNullish(data)
  {
    Prop(data, NatToString(i)).value
  }

  /** `data[i]` for each index the loop visits. */
  function Items(data: Value): (items: seq<Value>)
    requires Length(data).Some?
    ensures |items| == Length(data).value
    ensures forall i :: 0 <= i < |items| ==> items[i] == Item(data, i)
  {
    seq(Length(data).value, i requires 0 <= i < Length(data).value => Item(data, i))
  }

  /**
    `f` applied to each of `items`, in order; None where an item is null or
    undefined, since reading its fields throws.
   */
  function MapItems(items: seq<Value>, f: Value -> Value): Option<seq<Value>> {
    if items == [] then Some([])
    else
      var item := items[|items| - 1];
      match MapItems(items[..|items| - 1], f)
      case None => None
      case Some(rs) => if IsNullish(item) then None else Some(rs + [f(item)])
  }

  /**
    Mapping fails exactly when some item is null or undefined; otherwise
    there is one result per item, computed from that item.
   */
  lemma {:induction false} MapItemsSpec(items: seq<Value>, f: Value -> Value)
    ensures MapItems(items, f).None? <==> exists i :: 0 <= i < |items| && IsNullish(items[i])
    ensures MapItems(items, f).Some? ==>
      && |MapItems(items, f).value| == |items|
      && forall i :: 0 <= i < |items| ==> MapItems(items, f).value[i] == f(items[i])
  {
    if items != [] {
      var n := |items| - 1;
      var init := items[..n];
      MapItemsSpec(init, f);
      assert forall i :: 0 <= i < n ==> init[i] == items[i];
    }
  }

  /** `_parseFilter(data)`; None where reading `data.length` or an item's fields throws. */
  function ParseRules(data: Value): Option<seq<Value>> {
    if Length(data).None? then None else MapItems(Items(data), RuleFor)
  }

  /** The loop of `_parseFilter`. */
  method ParseFilter(data: Value) returns (parsedData: Option<seq<Value>>)
    ensures parsedData == ParseRules(data)
  {
    var length := Length(data);
    if length.None? {
      return None;
    }
    ghost var items := Items(data);
    var acc: seq<Value> := [];
    for i := 0 to length.value
      invariant MapItems(items[..i], RuleFor) == Some(acc)
    {
      MapItemsSnoc(items, i, RuleFor);
      var filter := Item(data, i);
      if IsNullish(filter) {
        RulesStuck(items, i + 1);
        return None;
      }
      var parsedFilter := ParseRule(filter);
      acc := acc + [parsedFilter];
    }
    assert items[..|items|] == items;
    return Some(acc);
  }

  /** The body of the loop of `_parseFilter`: the rule object for one item. */
  method ParseRule(filter: Value) returns (parsedFilter: Value)
    requires !IsNullish(filter)
    ensures parsedFilter == RuleFor(filter)
  {
    var field := Prop(filter, "field").value;
    var mode := Prop(filter, "mode").value;
    var isMask := !LooseEqualsWord(mode, SORT_ASCENDING) && !LooseEqualsWord(mode, SORT_DESCENDING);
    parsedFilter := Obj(false, [("field", field), ("mode", mode), ("is_mask", Bool(isMask))]);
  }

  /** A rule object carries the rule's field and mode, and is a mask exactly when the mode is neither "ASC" nor "DESC". */
  lemma RuleForProps(filter: Value)
    requires !IsNullish(filter)
    ensures Prop(RuleFor(filter), "field") == Prop(filter, "field")
    ensures Prop(RuleFor(filter), "mode") == Prop(filter, "mode")
    ensures Prop(RuleFor(filter), "is_mask") == Some(Bool(IsMask(Prop(filter, "mode").value)))
  {
    RuleObjectProps(Prop(filter, "field").GetOr(Undefined), Prop(filter, "mode").GetOr(Undefined));
  }

  /** The three properties of a rule object read back as built. */
  lemma RuleObjectProps(field: Value, mode: Value)
    ensures Prop(RuleObject(field, mode), "field") == Some(field)
    ensures Prop(RuleObject(field, mode), "mode") == Some(mode)
    ensures Prop(RuleObject(field, mode), "is_mask") == Some(Bool(IsMask(mode)))
  {
    var ps := RuleObject(field, mode).props;
    assert ForIn(RuleObject(field, mode)) == ps;
    GetThree("field", "mode", "is_mask", field, mode, Bool(IsMask(mode)));
  }

  /** Mapping one more item of a prefix. */
  lemma MapItemsSnoc(items: seq<Value>, i: nat, f: Value -> Value)
    requires i < |items|
    ensures MapItems(items[..i + 1], f) ==
      match MapItems(items[..i], f)
      case None => None
      case Some(rs) => if IsNullish(items[i]) then None else Some(rs + [f(items[i])])
  {
    assert items[..i + 1][..i] == items[..i];
  }

  /** Once the rules of a prefix fail, the rules of the whole fail. */
  lemma {:induction false} RulesStuck(items: seq<Value>, i: nat)
    requires i <= |items| && MapItems(items[..i], RuleFor).None?
    ensures MapItems(items, RuleFor).None?
    decreases |items| - i
  {
    if i < |items| {
      assert items[..i + 1][..i] == items[..i];
      RulesStuck(items, i + 1);
    } else {
      assert items[..i] == items;
    }
  }

  /**
    Rules given as an array literal keep their number and order; each rule
    object carries its rule's field and mode, and is a mask exactly when the
    mode is not loosely equal to "ASC" or "DESC".
   */
  lemma ParseRuleArray(rules: seq<Value>)
    requires forall i :: 0 <= i < |rules| ==> !IsNullish(rules[i])
    ensures ParseRules(ArrayOf(rules)).Some?
    ensures var parsed := ParseRules(ArrayOf(rules)).value;
      && |parsed| == |rules|
      && forall i :: 0 <= i < |rules| ==>
        && Prop(parsed[i], "field") == Prop(rules[i], "field")
        && Prop(parsed[i], "mode") == Prop(rules[i], "mode")
        && Prop(parsed[i], "is_mask") == Some(Bool(IsMask(Prop(rules[i], "mode").value)))
  {
    ArrayOfIndexing(rules);
    var items := Items(ArrayOf(rules));
    assert items == rules;
    MapItemsSpec(rules, RuleFor);
    forall i | 0 <= i < |rules| {
      RuleForProps(rules[i]);
    }
  }

  /** A string mode is a mask exactly when it is neither "ASC" nor "DESC"; a number, boolean, null or undefined always is. */
  lemma IsMaskPrimitive(mode: Value)
    requires !mode.Obj?
    ensures IsMask(mode) <==> !(mode == Str(SORT_ASCENDING) || mode == Str(SORT_DESCENDING))
  {
  }

  // ---------------------------------------------------------------- parseFilterData

  /** The object `parseFilterData` returns: at most the four recognised entries. */
  datatype Parsed = Parsed(fields: Option<Value>, filter: Option<seq<Value>>, sort: Option<seq<Value>>, limit: Option<Value>)

  /**
    One pass of the `for-in` loop, with `fieldsOf` and `rulesOf` the parsers
    of a `fields` value and of a rule list: a recognised key stores its
    parsed value, any other is skipped.
   */
  function ParseStep(p: Parsed, key: string, data: Value, fieldsOf: Value -> Value, rulesOf: Value -> Option<seq<Value>>): Option<Parsed> {
    if key == "fields" then Some(p.(fields := Some(fieldsOf(data))))
    else if key == "filter" then
      (match rulesOf(data) case None => None case Some(rules) => Some(p.(filter := Some(rules))))
    else if key == "sort" then
      (match rulesOf(data) case None => None case Some(rules) => Some(p.(sort := Some(rules))))
    else if key == "limit" then Some(p.(limit := Some(data)))
    else Some(p)
  }

  /** The loop over the entries `ps`; None where it throws. */
  function ParseEntries(ps: Dict<Value>, fieldsOf: Value -> Value, rulesOf: Value -> Option<seq<Value>>): Option<Parsed> {
    if ps == [] then Some(Parsed(None, None, None, None))
    else
      match ParseEntries(ps[..|ps| - 1], fieldsOf, rulesOf)
      case None => None
      case Some(p) => ParseStep(p, ps[|ps| - 1].0, ps[|ps| - 1].1, fieldsOf, rulesOf)
  }

  /** `parseFilterData(filterData)`. */
  function ParseFilterData(filterData: Value): Option<Parsed> {
    ParseEntries(ForIn(filterData), FieldsValue, ParseRules)
  }

  /** The parsed list under a rule key `k`: absent, or the parse of its value. */
  function RulesUnder(ps: Dict<Value>, k: string, rulesOf: Value -> Option<seq<Value>>): Option<Option<seq<Value>>> {
    match GetLast(ps, k)
    case None => None
    case Some(d) => Some(rulesOf(d))
  }

  /** Parsing under a rule key that is present fails. */
  predicate RulesFail(ps: Dict<Value>, k: string, rulesOf: Value -> Option<seq<Value>>) {
    RulesUnder(ps, k, rulesOf) == Some(None)
  }

  /** Only the four recognised keys reach the parsed object, each from its last entry. */
  function Expected(ps: Dict<Value>, fieldsOf: Value -> Value, rulesOf: Value -> Option<seq<Value>>): Parsed
    requires !RulesFail(ps, "filter", rulesOf) && !RulesFail(ps, "sort", rulesOf)
  {
    Parsed(
      match GetLast(ps, "fields") case None => None case Some(d) => Some(fieldsOf(d)),
      match RulesUnder(ps, "filter", rulesOf) case None => None case Some(r) => r,
      match RulesUnder(ps, "sort", rulesOf) case None => None case Some(r) => r,
      GetLast(ps, "limit"))
  }

  /** The parse of an entry list agrees with `Expected`: it throws exactly when a rule list fails. */
  predicate ParsedAsExpected(ps: Dict<Value>, fieldsOf: Value -> Value, rulesOf: Value -> Option<seq<Value>>) {
    && (ParseEntries(ps, fieldsOf, rulesOf).None? <==> RulesFail(ps, "filter", rulesOf) || RulesFail(ps, "sort", rulesOf))
    && (ParseEntries(ps, fieldsOf, rulesOf).Some? ==> ParseEntries(ps, fieldsOf, rulesOf).value == Expected(ps, fieldsOf, rulesOf))
  }

  /**
    Parsing throws exactly when a `filter` or `sort` entry cannot be parsed;
    otherwise it keeps the four recognised keys, parses `fields`, `filter`
    and `sort`, passes `limit` through, and skips every other key.
   */
  lemma {:induction false} ParseEntriesSpec(ps: Dict<Value>, fieldsOf: Value -> Value, rulesOf: Value -> Option<seq<Value>>)
    requires NoDupKeys(ps)
    ensures ParsedAsExpected(ps, fieldsOf, rulesOf)
  {
    if ps != [] {
      var init := ps[..|ps| - 1];
      var e := ps[|ps| - 1];
      NoDupPrefix(ps, |ps| - 1);
      ParseEntriesSpec(init, fieldsOf, rulesOf);
      if e.0 == "filter" || e.0 == "sort" {
        assert init + [e] == ps;
        SnocFresh(init, e);
        GetLastNoDup(init, e.0);
        assert RulesUnder(init, e.0, rulesOf) == None;
        assert RulesUnder(ps, e.0, rulesOf) == Some(rulesOf(e.1));
      } else {
        assert RulesUnder(ps, "filter", rulesOf) == RulesUnder(init, "filter", rulesOf);
        assert RulesUnder(ps, "sort", rulesOf) == RulesUnder(init, "sort", rulesOf);
      }
    }
  }

  /** `filterData[k]` parsed as a rule list: absent, or the parse of its value. */
  function RuleEntry(filterData: Value, k: string): Option<Option<seq<Value>>> {
    match Get(ForIn(filterData), k)
    case None => None
    case Some(d) => Some(ParseRules(d))
  }

  /**
    `parseFilterData` throws exactly when the `filter` or `sort` entry of the
    filter block cannot be parsed; otherwise its result holds the parsed
    `fields`, `filter` and `sort` entries and the `limit` entry as given, and
    nothing for an absent one.
   */
  lemma ParseFilterDataSpec(filterData: Value)
    requires NoDupKeys(ForIn(filterData))
    ensures ParseFilterData(filterData).None? <==> RuleEntry(filterData, "filter") == Some(None) || RuleEntry(filterData, "sort") == Some(None)
    ensures ParseFilterData(filterData).Some? ==>
      var parsed := ParseFilterData(filterData).value;
      var ps := ForIn(filterData);
      && parsed.fields == (match Get(ps, "fields") case None => None case Some(d) => Some(FieldsValue(d)))
      && parsed.filter == (match RuleEntry(filterData, "filter") case None => None case Some(r) => r)
      && parsed.sort == (match RuleEntry(filterData, "sort") case None => None case Some(r) => r)
      && parsed.limit == Get(ps, "limit")
  {
    var ps := ForIn(filterData);
    ParseEntriesSpec(ps, FieldsValue, ParseRules);
    GetLastNoDup(ps, "fields");
    GetLastNoDup(ps, "filter");
    GetLastNoDup(ps, "sort");
    GetLastNoDup(ps, "limit");
  }

  /** The loop of `parseFilterData`. */
  method ParseFilterDataLoop(filterData: Value) returns (parsedData: Option<Parsed>)
    ensures parsedData == ParseFilterData(filterData)
  {
    var ps := ForIn(filterData);
    var p := Parsed(None, None, None, None);
    for i := 0 to |ps|
      invariant ParseEntries(ps[..i], FieldsValue, ParseRules) == Some(p)
    {
      assert ps[..i + 1] == ps[..i] + [ps[i]];
      assert ps[..i + 1][..i] == ps[..i];
      var key := ps[i].0;
      var data := ps[i].1;
      if key == "fields" {
        p := p.(fields := Some(FieldsValue(data)));
      } else if key == "filter" || key == "sort" {
        var rules := ParseFilter(data);
        if rules.None? {
          EntriesStuck(ps, i + 1);
          return None;
        }
        if key == "filter" {
          p := p.(filter := rules);
        } else {
          p := p.(sort := rules);
        }
      } else if key == "limit" {
        p := p.(limit := Some(data));
      }
    }
    assert ps[..|ps|] == ps;
    return Some(p);
  }

  /** Once the parse of a prefix throws, the parse of the whole throws. */
  lemma {:induction false} EntriesStuck(ps: Dict<Value>, i: nat)
    requires i <= |ps| && ParseEntries(ps[..i], FieldsValue, ParseRules).None?
    ensures ParseEntries(ps, FieldsValue, ParseRules).None?
    decreases |ps| - i
  {
    if i < |ps| {
      assert ps[..i + 1][..i] == ps[..i];
      EntriesStuck(ps, i + 1);
    } else {
      assert ps[..i] == ps;
    }
  }

  // ---------------------------------------------------------------- the handler

  /** The `{from, count}` pair `getLimit` returns. */
  datatype Limit = Limit(from: Value, count: Value)

  /** Whether a pass stores the callback's result `v`: any truthy one, or any that is not null or undefined. */
  predicate Accepted(v: Value, truthyOnly: bool) {
    if truthyOnly then Truthy(v) else !IsNullish(v)
  }

  /**
    The entries `vs` after a pass that calls `callback` on each and stores
    the results it accepts.
   */
  function Rewritten(vs: seq<Value>, callback: Value -> Value, truthyOnly: bool): (r: seq<Value>)
    ensures |r| == |vs|
    ensures forall i :: 0 <= i < |vs| ==>
      if Accepted(callback(vs[i]), truthyOnly) then r[i] == callback(vs[i]) else r[i] == vs[i]
  {
    seq(|vs|, i requires 0 <= i < |vs| =>
      if Accepted(callback(vs[i]), truthyOnly) then callback(vs[i]) else vs[i])
  }

  /** A pass whose callback returns its argument changes nothing. */
  lemma RewrittenIdentity(vs: seq<Value>, truthyOnly: bool)
    ensures Rewritten(vs, v => v, truthyOnly) == vs
  {
  }

  /** A pass keeps every entry acceptable: an entry is replaced only by a result the pass accepts. */
  lemma RewrittenAccepted(vs: seq<Value>, callback: Value -> Value, truthyOnly: bool)
    requires forall i :: 0 <= i < |vs| ==> Accepted(vs[i], truthyOnly)
    ensures forall i :: 0 <= i < |vs| ==> Accepted(Rewritten(vs, callback, truthyOnly)[i], truthyOnly)
  {
  }

  class Handler {
    /** `_fields`: the field list, or `[]`. */
    var fields: Value
    /** `_filter`: the parsed filter rules, or `[]`. */
    var filter: seq<Value>
    /** `_sort`: the parsed sort rules, or `[]`. */
    var sort: seq<Value>
    /**
      `_limit`. The constructor computes the request's limit into a local it
      then discards, so the stored limit is always `{from: null, count: null}`.
     */
    const limit: Limit := Limit(Null, Null)

    /** The field list is never falsy: a missing or falsy one is replaced by `[]`. */
    ghost predicate Valid()
      reads this
    {
      Truthy(fields)
    }

    /** The constructor, from the result of a parse that did not throw. */
    constructor (parsed: Parsed)
      ensures Valid()
      ensures fields == (if parsed.fields.Some? && Truthy(parsed.fields.value) then parsed.fields.value else EmptyArray)
      ensures filter == parsed.filter.GetOr([]) && sort == parsed.sort.GetOr([])
    {
      fields := if parsed.fields.Some? && Truthy(parsed.fields.value) then parsed.fields.value else EmptyArray;
      filter := parsed.filter.GetOr([]);
      sort := parsed.sort.GetOr([]);
    }

    /** `getFields()`: the current field list, which is never falsy. */
    function GetFields(): (r: Value)
      requires Valid()
      reads this
      ensures Truthy(r) && r == fields
    {
      fields
    }

    /** `getLimit()`: always nulls, whatever limit the request carried. */
    function GetLimit(): (r: Limit)
      ensures r.from == Null && r.count == Null
    {
      limit
    }

    /**
      `eachField(callback)`: each entry of the field list is replaced by the
      callback's result unless that is null or undefined.
     */
    method EachField(callback: Value -> Value)
      requires Valid()
      modifies this
      ensures Valid()
      ensures filter == old(filter) && sort == old(sort)
      ensures !old(fields).Obj? ==> fields == old(fields)
      ensures old(fields).Obj? ==>
        fields.Obj? && fields.isArray == old(fields).isArray
        && Keys(fields.props) == Keys(old(fields).props)
        && forall i :: 0 <= i < |fields.props| ==>
          fields.props[i].1 == Rewritten(Values(old(fields).props), callback, false)[i]
    {
      if fields.Obj? {
        var ps := fields.props;
        ghost var original := ps;
        for i := 0 to |ps|
          invariant |ps| == |original| && Keys(ps) == Keys(original)
          invariant forall j :: 0 <= j < |ps| ==>
            ps[j].1 == (if j < i then Rewritten(Values(original), callback, false)[j] else original[j].1)
        {
          var fieldData := callback(ps[i].1);
          if !IsNullish(fieldData) {
            ps := ps[i := (ps[i].0, fieldData)];
          }
        }
        fields := Obj(fields.isArray, ps);
      }
    }

    /** `eachFilter(callback)`: each rule is replaced by a truthy callback result. */
    method EachFilter(callback: Value -> Value)
      modifies this
      ensures fields == old(fields) && sort == old(sort)
      ensures filter == Rewritten(old(filter), callback, true)
    {
      for i := 0 to |filter|
        invariant fields == old(fields) && sort == old(sort)
        invariant |filter| == |old(filter)|
        invariant forall j :: 0 <= j < |filter| ==>
          filter[j] == (if j < i then Rewritten(old(filter), callback, true)[j] else old(filter)[j])
      {
        var newFilterData := callback(filter[i]);
        if Truthy(newFilterData) {
          filter := filter[i := newFilterData];
        }
      }
    }

    /** `eachSort(callback)`: each rule is replaced by a truthy callback result. */
    method EachSort(callback: Value -> Value)
      modifies this
      ensures fields == old(fields) && filter == old(filter)
      ensures sort == Rewritten(old(sort), callback, true)
    {
      for i := 0 to |sort|
        invariant fields == old(fields) && filter == old(filter)
        invariant |sort| == |old(sort)|
        invariant forall j :: 0 <= j < |sort| ==>
          sort[j] == (if j < i then Rewritten(old(sort), callback, true)[j] else old(sort)[j])
      {
        var newSortData := callback(sort[i]);
        if Truthy(newSortData) {
          sort := sort[i := newSortData];
        }
      }
    }
  }

  /** The values of a dictionary, in order. */
  function Values(ps: Dict<Value>): (vs: seq<Value>)
    ensures |vs| == |ps| && forall i :: 0 <= i < |ps| ==> vs[i] == ps[i].1
  {
    seq(|ps|, i requires 0 <= i < |ps| => ps[i].1)
  }

  /**
    `new FilterHandler(filterData)`: None where parsing throws; otherwise a
    handler holding the parsed lists, with `[]` for a missing or falsy one.
   */
  method New(filterData: Value) returns (h: Option<Handler>)
    ensures h.None? <==> ParseFilterData(filterData).None?
    ensures h.Some? ==>
      var parsed := ParseFilterData(filterData).value;
      && fresh(h.value) && h.value.Valid()
      && h.value.fields == (if parsed.fields.Some? && Truthy(parsed.fields.value) then parsed.fields.value else EmptyArray)
      && h.value.filter == parsed.filter.GetOr([])
      && h.value.sort == parsed.sort.GetOr([])
  {
    var parsed := ParseFilterDataLoop(filterData);
    if parsed.None? {
      return None;
    }
    var handler := new Handler(parsed.value);
    return Some(handler);
  }
}
