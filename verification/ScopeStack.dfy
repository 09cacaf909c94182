/** Names in nested scopes.

    A stack of scopes, the innermost first, each with an item whose attributes are the symbols the
    scope defines.  All items here are symbol tables; several scopes may share one. */
module ScopeStack {
  import opened Syntax
  import opened Values

  // ---------------------------------------------------------------- symbol tables

  /** A symbol holds a text or points to an item. */
  datatype Entry = Entry(text: Option<string>, item: Option<nat>)

  type Table = map<string, Entry>

  /** The symbol tables by item; one that is missing has been deleted. */
  type Tables = map<nat, Table>

  function LowerChar(c: char): char {
    if 'A' <= c <= 'Z' then ((c as int - 'A' as int) + 'a' as int) as char else c
  }

  function Lower(s: string): (r: string)
    ensures |r| == |s|
  {
    if s == [] then [] else [LowerChar(s[0])] + Lower(s[1..])
  }

  function PointerTo(item: nat): Value {
    Value(PointerType, None, 0.0, item)
  }

  /** symb_get_attr: names are looked up in lower case. */
  function Get(tables: Tables, item: nat, name: Option<string>): (v: Option<Value>)
    ensures v.Some? ==> v.value.vtype != UndefinedType
  {
    if item !in tables || name.None? || name.value == "" || Lower(name.value) !in tables[item] then None
    else
      var e := tables[item][Lower(name.value)];
      if e.text.Some? then Some(UnknownText(e.text.value))
      else if e.item.Some? then Some(PointerTo(e.item.value))
      else None
  }

  /** symb_put_attr; no value deletes the symbol, and no result is a failure.  The text of a value is
      computed for a new symbol and where it has to be compared with the old text. */
  function Put(tables: Tables, item: nat, name: Option<string>, v: Option<Value>, itemText: ItemText): Option<Tables> {
    if item !in tables || name.None? || name.value == "" then None
    else
      var key, t := Lower(name.value), tables[item];
      if v.Some? && v.value.vtype == PointerType then
        Some(tables[item := t[key := Entry(None, Some(v.value.item))]])
      else if v.None? || v.value.vtype == UndefinedType then
        Some(tables[item := t - {key}])
      else if key in t && t[key].text.None? then
        Some(tables[item := t[key := Entry(v.value.s, None)]])
      else
        Some(tables[item := t[key := Entry(Some(StringOf(v.value, itemText)), None)]])
  }

  /** The value a name has after it was given the value `v`. */
  function Image(v: Value, itemText: ItemText): Value
  {
    if v.vtype == PointerType then PointerTo(v.item) else UnknownText(StringOf(v, itemText))
  }

  /** A value without text replaces a pointer: nobody computes its text. */
  predicate LosesText(tables: Tables, item: nat, name: string, v: Value) {
    && v.vtype != PointerType && v.s.None?
    && item in tables && Lower(name) in tables[item] && tables[item][Lower(name)].text.None?
  }

  /** What was put is what is got, except in that one case, where the name becomes undefined. */
  lemma GetAfterPut(tables: Tables, item: nat, name: string, v: Value, itemText: ItemText)
    requires item in tables && name != "" && v.vtype != UndefinedType
    ensures var after := Put(tables, item, Some(name), Some(v), itemText);
            after.Some? && Get(after.value, item, Some(name))
                           == if LosesText(tables, item, name, v) then None else Some(Image(v, itemText))
  {
  }

  // ---------------------------------------------------------------- the stack of scopes

  datatype ScopeBlock = ScopeBlock(alias: Option<string>, item: Option<nat>, stacked: bool)

  /** A symbol in a script: the value of its scope and the value of its name, if given. */
  datatype SymbolRef = SymbolRef(scope: Option<Value>, name: Option<Value>)

  function StackedOf(scopes: seq<ScopeBlock>): seq<ScopeBlock> {
    if scopes == [] then [] else if scopes[0].stacked then [scopes[0]] + StackedOf(scopes[1..])
        else StackedOf(scopes[1..])
  }

  /** The scope a number stands for: from the innermost for numbers up to zero, else from the outermost. */
  function Numbered(stacked: seq<ScopeBlock>, number: int): Option<ScopeBlock> {
    if number <= 0 then if -number < |stacked| then Some(stacked[-number]) else None
    else if number <= |stacked| then Some(stacked[|stacked| - number]) else None
  }

  /** Counting from the outside and counting from the inside name the same scopes. */
  lemma SameScope(scopes: seq<ScopeBlock>, k: int)
    ensures var l := StackedOf(scopes);
            && (1 <= k <= |l| ==> Numbered(l, k).Some? && Numbered(l, k) == Numbered(l, k - |l|))
            && (Numbered(l, k).Some? <==> -|l| < k <= |l| && l != [])
  {
  }

  lemma {:induction false} StackedSplit(a: seq<ScopeBlock>, b: seq<ScopeBlock>)
    ensures StackedOf(a + b) == StackedOf(a) + StackedOf(b)
  {
    if a == [] {
      assert a + b == b;
    } else {
      assert (a + b)[1..] == a[1..] + b;
      StackedSplit(a[1..], b);
    }
  }

  lemma StackedOne(s: ScopeBlock)
    ensures StackedOf([s]) == Alone(s)
  {
    assert [s][1..] == [];
  }

  function Alone(s: ScopeBlock): seq<ScopeBlock> {
    if s.stacked then [s] else []
  }

  lemma StackedBefore(scopes: seq<ScopeBlock>, i: nat)
    requires i < |scopes|
    ensures StackedOf(scopes[..i + 1]) == StackedOf(scopes[..i]) + Alone(scopes[i])
  {
    hide StackedOf;
    StackedOne(scopes[i]);
    assert scopes[..i + 1] == scopes[..i] + [scopes[i]];
    StackedSplit(scopes[..i], [scopes[i]]);
  }

  lemma StackedFrom(scopes: seq<ScopeBlock>, i: nat)
    requires i < |scopes|
    ensures StackedOf(scopes[i..]) == Alone(scopes[i]) + StackedOf(scopes[i + 1..])
  {
    assert scopes[i..][1..] == scopes[i + 1..];
  }

  lemma StackedAt(scopes: seq<ScopeBlock>, i: nat)
    requires i <= |scopes|
    ensures StackedOf(scopes) == StackedOf(scopes[..i]) + StackedOf(scopes[i..])
  {
    assert scopes == scopes[..i] + scopes[i..];
    StackedSplit(scopes[..i], scopes[i..]);
  }

  /** lookup_scope_by_number */
  method ScopeByNumber(scopes: seq<ScopeBlock>, number: int) returns (found: Option<ScopeBlock>)
    ensures found == Numbered(StackedOf(scopes), number)
  {
    var n := number;
    if n <= 0 {
      for i := 0 to |scopes|
        invariant n == number + |StackedOf(scopes[..i])| <= 0
      {
        StackedBefore(scopes, i);
        StackedFrom(scopes, i);
        StackedAt(scopes, i);
        if scopes[i].stacked {
          if n == 0 {
            return Some(scopes[i]);
          }
          n := n + 1;
        }
      }
      assert scopes[..|scopes|] == scopes;
    } else {
      for i := |scopes| downto 0
        invariant n == number - |StackedOf(scopes[i..])| > 0
      {
        StackedFrom(scopes, i);
        StackedAt(scopes, i);
        if scopes[i].stacked {
          n := n - 1;
          if n == 0 {
            return Some(scopes[i]);
          }
        }
      }
      assert scopes[0..] == scopes;
    }
    return None;
  }

  // ---------------------------------------------------------------- which scope defines a name

  /** The item of the innermost stacked scope that defines the name. */
  function Definer(scopes: seq<ScopeBlock>, tables: Tables, name: Option<string>): (d: Option<nat>)
    ensures d.Some? ==> Get(tables, d.value, name).Some?
  {
    if scopes == [] then None
    else if scopes[0].stacked && scopes[0].item.Some?
        && Get(tables, scopes[0].item.value, name).Some? then scopes[0].item
    else Definer(scopes[1..], tables, name)
  }

  /** The outermost stacked scope. */
  function Outermost(scopes: seq<ScopeBlock>): Option<ScopeBlock> {
    if StackedOf(scopes) == [] then None else Some(StackedOf(scopes)[|StackedOf(scopes)| - 1])
  }

  predicate Matches(alias: Option<string>, name: string, ignorecase: bool) {
    alias.Some? && (alias.value == name || (ignorecase && Lower(alias.value) == Lower(name)))
  }

  /** The innermost scope with that alias. */
  function Aliased(scopes: seq<ScopeBlock>, name: string, ignorecase: bool): Option<ScopeBlock> {
    if scopes == [] then None
    else if Matches(scopes[0].alias, name, ignorecase) then Some(scopes[0])
    else Aliased(scopes[1..], name, ignorecase)
  }

  function ScopeValue(s: ScopeBlock): Value {
    if s.item.Some? then PointerTo(s.item.value) else UNDEFINED
  }

  function NameText(name: Option<Value>, itemText: ItemText): Option<string> {
    if name.Some? then Some(StringOf(name.value, itemText)) else None
  }

  /** symbol_value in its four cases. */
  function Lookup(scopes: seq<ScopeBlock>, tables: Tables, symbol: SymbolRef, ignorecase: bool,
      itemText: ItemText): Option<Value> {
    var name := NameText(symbol.name, itemText);
    if symbol.scope.Some? && symbol.scope.value.vtype == PointerType then
      if name.Some? then Get(tables, symbol.scope.value.item, name) else Some(PointerTo(symbol.scope.value.item))
    else if symbol.name.Some? && NumberValue(symbol.name.value).vtype == NumberType then
      match Numbered(StackedOf(scopes), Trunc(NumberIn(symbol.name.value)))
      case Some(s) => Some(ScopeValue(s))
      case None => None
    else if symbol.scope.None? && name.Some? && Aliased(scopes, name.value, ignorecase).Some? then
      Some(ScopeValue(Aliased(scopes, name.value, ignorecase).value))
    else
      match Definer(scopes, tables, name)
      case Some(item) => Get(tables, item, name)
      case None => None
  }

  // ---------------------------------------------------------------- storing

  /** The item symbol_item finds for a symbol. */
  function ItemFor(scopes: seq<ScopeBlock>, tables: Tables, symbol: SymbolRef, itemText: ItemText): Option<nat> {
    if symbol.scope.Some? && symbol.scope.value.vtype == PointerType then Some(symbol.scope.value.item)
    else if symbol.name.Some? then Definer(scopes, tables, NameText(symbol.name, itemText))
    else None
  }

  /** The item a value is stored in: where the name is defined, else in the outermost stacked scope. */
  function Target(scopes: seq<ScopeBlock>, tables: Tables, symbol: SymbolRef, itemText: ItemText): Option<nat> {
    var found := ItemFor(scopes, tables, symbol, itemText);
    if found.Some? then found
    else if Outermost(scopes).Some? then Outermost(scopes).value.item else None
  }

  lemma {:induction false} DefinerMeets(scopes: seq<ScopeBlock>, tables: Tables, after: Tables, name: Option<string>,
      item: nat)
    requires Get(after, item, name).Some?
    requires forall i: nat | i != item :: Get(after, i, name) == Get(tables, i, name)
    requires Definer(scopes, tables, name) == Some(item)
          || (Definer(scopes, tables, name).None? && exists i | 0 <= i < |scopes| ::
              scopes[i].stacked && scopes[i].item == Some(item))
    ensures Definer(scopes, after, name) == Some(item)
  {
    if !(scopes[0].stacked && scopes[0].item == Some(item)) {
      if Definer(scopes, tables, name).None? {
        var i :| 0 <= i < |scopes| && scopes[i].stacked && scopes[i].item == Some(item);
        assert scopes[1..][i - 1] == scopes[i];
      }
      DefinerMeets(scopes[1..], tables, after, name, item);
    }
  }

  lemma {:induction false} OutermostOccurs(scopes: seq<ScopeBlock>)
    requires Outermost(scopes).Some?
    ensures exists i | 0 <= i < |scopes| :: scopes[i].stacked && scopes[i] == Outermost(scopes).value
  {
    if StackedOf(scopes[1..]) != [] {
      OutermostOccurs(scopes[1..]);
      var i :| 0 <= i < |scopes[1..]| && scopes[1..][i].stacked && scopes[1..][i] == Outermost(scopes[1..]).value;
      assert scopes[i + 1] == Outermost(scopes).value;
    } else {
      assert scopes[0] == Outermost(scopes).value;
    }
  }

  datatype Storing = Storing(ok: bool, tables: Tables)

  /** store_symbol_definition.  Without a value the name is deleted where it is defined. */
  function Store(scopes: seq<ScopeBlock>, tables: Tables, symbol: SymbolRef, value: Option<Value>,
      itemText: ItemText): Storing {
    if symbol.scope.Some? && symbol.scope.value.vtype == UndefinedType then Storing(false, tables)
    else
      var removes := value.None? || value.value.vtype == UndefinedType;
      var name := if symbol.name.Some?
          && symbol.name.value.vtype != UndefinedType then NameText(symbol.name, itemText) else None;
      var item := if removes then ItemFor(scopes, tables, symbol, itemText)
          else Target(scopes, tables, symbol, itemText);
      if item.None? then Storing(removes, tables)
      else
        match Put(tables, item.value, name, value, itemText)
        case Some(after) => Storing(true, after)
        case None => Storing(false, tables)
  }

  /** A symbol that is neither scoped, nor a number, nor the alias of a scope. */
  predicate PlainName(scopes: seq<ScopeBlock>, name: string, ignorecase: bool) {
    name != "" && ScanNumber(name).None? && Aliased(scopes, name, ignorecase).None?
  }

  function Named(name: string): SymbolRef {
    SymbolRef(None, Some(UnknownText(name)))
  }

  lemma PutKeepsOthers(tables: Tables, item: nat, name: Option<string>, value: Option<Value>, itemText: ItemText,
      i: nat, other: Option<string>)
    requires Put(tables, item, name, value, itemText).Some?
    requires i != item || other.None? || Lower(other.value) != Lower(name.value)
    ensures Get(Put(tables, item, name, value, itemText).value, i, other) == Get(tables, i, other)
  {
  }

  /** The scopes whose item is another one. */
  function Others(scopes: seq<ScopeBlock>, item: nat): seq<ScopeBlock> {
    if scopes == [] then []
    else if scopes[0].item == Some(item) then Others(scopes[1..], item)
    else [scopes[0]] + Others(scopes[1..], item)
  }

  lemma {:induction false} DefinerElsewhere(scopes: seq<ScopeBlock>, tables: Tables, after: Tables,
      name: Option<string>, item: nat)
    requires Get(after, item, name).None?
    requires forall i: nat | i != item :: Get(after, i, name) == Get(tables, i, name)
    ensures Definer(scopes, after, name) == Definer(Others(scopes, item), tables, name)
  {
    if scopes != [] {
      DefinerElsewhere(scopes[1..], tables, after, name, item);
      if scopes[0].item != Some(item) {
        assert Others(scopes, item)[1..] == Others(scopes[1..], item);
      }
    }
  }

  lemma {:induction false} NoAliasElsewhere(scopes: seq<ScopeBlock>, name: string, ignorecase: bool, item: nat)
    requires Aliased(scopes, name, ignorecase).None?
    ensures Aliased(Others(scopes, item), name, ignorecase).None?
  {
    if scopes != [] {
      NoAliasElsewhere(scopes[1..], name, ignorecase, item);
      if scopes[0].item != Some(item) {
        assert Others(scopes, item)[1..] == Others(scopes[1..], item);
      }
    }
  }

  /** Storing a value under a plain name succeeds if and only if there is a symbol table to store it in,
      and then the name has that value: except where a value without text replaces a pointer, when
      the name means whatever the other scopes say. */
  lemma StoreThenLookup(scopes: seq<ScopeBlock>, tables: Tables, name: string, v: Value, ignorecase: bool,
      itemText: ItemText)
    requires PlainName(scopes, name, ignorecase) && v.vtype != UndefinedType
    ensures var item := Target(scopes, tables, Named(name), itemText);
            var r := Store(scopes, tables, Named(name), Some(v), itemText);
            && (r.ok <==> item.Some? && item.value in tables)
            && (r.ok && !LosesText(tables, item.value, name, v) ==>
                  Lookup(scopes, r.tables, Named(name), ignorecase, itemText) == Some(Image(v, itemText)))
            && (r.ok && LosesText(tables, item.value, name, v) ==>
                  && Get(r.tables, item.value, Some(name)).None?
                  && Lookup(scopes, r.tables, Named(name), ignorecase, itemText)
                     == Lookup(Others(scopes, item.value), tables, Named(name), ignorecase, itemText))
  {
    hide Put, Get, Definer, Others, Aliased;
    var item := Target(scopes, tables, Named(name), itemText);
    var r := Store(scopes, tables, Named(name), Some(v), itemText);
    if item.Some? {
      PutSucceeds(tables, item.value, name, v, itemText);
    }
    if r.ok {
      GetAfterPut(tables, item.value, name, v, itemText);
      forall i: nat | i != item.value ensures Get(r.tables, i, Some(name)) == Get(tables, i, Some(name)) {
        PutKeepsOthers(tables, item.value, Some(name), Some(v), itemText, i, Some(name));
      }
      if LosesText(tables, item.value, name, v) {
        DefinerElsewhere(scopes, tables, r.tables, Some(name), item.value);
        NoAliasElsewhere(scopes, name, ignorecase, item.value);
      } else {
        if Definer(scopes, tables, Some(name)).None? {
          OutermostOccurs(scopes);
        }
        DefinerMeets(scopes, tables, r.tables, Some(name), item.value);
      }
    }
  }

  lemma PutSucceeds(tables: Tables, item: nat, name: string, v: Value, itemText: ItemText)
    requires name != ""
    ensures Put(tables, item, Some(name), Some(v), itemText).Some? <==> item in tables
  {
  }

  /** The loss is real: a computed number stored over a pointer leaves the name undefined. */
  lemma ComputedNumberIsLost()
    ensures var scopes, tables := [ScopeBlock(None, Some(0), true)], map[0 := map["x" := Entry(None, Some(7))]];
            var r := Store(scopes, tables, Named("x"), Some(NumberOf(3.0)), (i: nat) => "");
            r.ok && Lookup(scopes, r.tables, Named("x"), false, (i: nat) => "") == None
  {
    var scopes, tables: Tables := [ScopeBlock(None, Some(0), true)], map[0 := map["x" := Entry(None, Some(7))]];
    assert Lower("x") == "x" by {
      assert "x"[1..] == "";
    }
    assert scopes[1..] == [];
    assert Definer(scopes, tables, Some("x")) == Some(0);
    StoreThenLookup(scopes, tables, "x", NumberOf(3.0), false, (i: nat) => "");
  }

  lemma {:induction false} DefinerKept(scopes: seq<ScopeBlock>, tables: Tables, after: Tables, name: Option<string>)
    requires forall i: nat :: Get(after, i, name) == Get(tables, i, name)
    ensures Definer(scopes, after, name) == Definer(scopes, tables, name)
  {
    if scopes != [] {
      DefinerKept(scopes[1..], tables, after, name);
    }
  }

  /** Whatever is stored or deleted, every other name keeps its meaning, in every scope. */
  lemma OtherNamesKept(
    scopes: seq<ScopeBlock>, tables: Tables, symbol: SymbolRef, value: Option<Value>, other: SymbolRef,
        ignorecase: bool, itemText: ItemText)
    requires other.name.None? || symbol.name.None?
          || Lower(StringOf(other.name.value, itemText)) != Lower(StringOf(symbol.name.value, itemText))
    ensures var r := Store(scopes, tables, symbol, value, itemText);
            Lookup(scopes, r.tables, other, ignorecase, itemText) == Lookup(scopes, tables, other, ignorecase, itemText)
  {
    hide Put, Get;
    var r := Store(scopes, tables, symbol, value, itemText);
    if r.tables != tables {
      var removes := value.None? || value.value.vtype == UndefinedType;
      var item := if removes then ItemFor(scopes, tables, symbol, itemText)
          else Target(scopes, tables, symbol, itemText);
      var name, o := NameText(symbol.name, itemText), NameText(other.name, itemText);
      PutNeedsName(tables, item.value, value, itemText);
      forall i: nat ensures Get(r.tables, i, o) == Get(tables, i, o) {
        PutKeepsOthers(tables, item.value, name, value, itemText, i, o);
      }
      DefinerKept(scopes, tables, r.tables, o);
    }
  }

  lemma PutNeedsName(tables: Tables, item: nat, value: Option<Value>, itemText: ItemText)
    ensures Put(tables, item, None, value, itemText) == None
  {
  }

  // ---------------------------------------------------------------- where names are found and stored

  /** Entering a scope: counted from the inside all numbers move by one, counted from the outside none does. */
  lemma NumbersShift(s: ScopeBlock, scopes: seq<ScopeBlock>, k: int)
    requires s.stacked
    ensures Numbered(StackedOf([s] + scopes), 0) == Some(s)
    ensures k <= 0 ==> Numbered(StackedOf([s] + scopes), k - 1) == Numbered(StackedOf(scopes), k)
    ensures 1 <= k <= |StackedOf(scopes)| ==> Numbered(StackedOf([s] + scopes), k) == Numbered(StackedOf(scopes), k)
  {
    assert ([s] + scopes)[1..] == scopes;
    NumbersInLonger(s, StackedOf(scopes), k);
  }

  lemma NumbersInLonger(s: ScopeBlock, l: seq<ScopeBlock>, k: int)
    ensures Numbered([s] + l, 0) == Some(s)
    ensures k <= 0 ==> Numbered([s] + l, k - 1) == Numbered(l, k)
    ensures 1 <= k <= |l| ==> Numbered([s] + l, k) == Numbered(l, k)
  {
  }

  /** Stacked scope `k` defines the name, and none further in does. */
  ghost predicate DefinesFirst(scopes: seq<ScopeBlock>, tables: Tables, name: string, k: nat) {
    && k < |scopes| && Defines(scopes[k], tables, name)
    && forall j | 0 <= j < k :: !Defines(scopes[j], tables, name)
  }

  predicate Defines(s: ScopeBlock, tables: Tables, name: string) {
    s.stacked && s.item.Some? && Get(tables, s.item.value, Some(name)).Some?
  }

  lemma {:induction false} DefinerIsFirst(scopes: seq<ScopeBlock>, tables: Tables, name: string, k: nat)
    requires DefinesFirst(scopes, tables, name, k)
    ensures Definer(scopes, tables, Some(name)) == scopes[k].item
  {
    if k > 0 {
      assert !Defines(scopes[0], tables, name);
      forall j | 0 <= j < k - 1 ensures !Defines(scopes[1..][j], tables, name) {
        assert !Defines(scopes[j + 1], tables, name);
      }
      DefinerIsFirst(scopes[1..], tables, name, k - 1);
    }
  }

  lemma {:induction false} NoDefiner(scopes: seq<ScopeBlock>, tables: Tables, name: string)
    requires forall j | 0 <= j < |scopes| :: !Defines(scopes[j], tables, name)
    ensures Definer(scopes, tables, Some(name)) == None
  {
    if scopes != [] {
      assert !Defines(scopes[0], tables, name);
      forall j | 0 <= j < |scopes| - 1 ensures !Defines(scopes[1..][j], tables, name) {
        assert !Defines(scopes[j + 1], tables, name);
      }
      NoDefiner(scopes[1..], tables, name);
    }
  }

  lemma {:induction false} AliasedIsFirst(scopes: seq<ScopeBlock>, name: string, ignorecase: bool, k: nat)
    requires k < |scopes| && Matches(scopes[k].alias, name, ignorecase)
    requires forall j | 0 <= j < k :: !Matches(scopes[j].alias, name, ignorecase)
    ensures Aliased(scopes, name, ignorecase) == Some(scopes[k])
  {
    if k > 0 { AliasedIsFirst(scopes[1..], name, ignorecase, k - 1); }
  }

  lemma {:induction false} NoneAliased(scopes: seq<ScopeBlock>, name: string, ignorecase: bool)
    ensures Aliased(scopes, name, ignorecase).None? <==>
            forall j | 0 <= j < |scopes| :: !Matches(scopes[j].alias, name, ignorecase)
  {
    if scopes != [] {
      NoneAliased(scopes[1..], name, ignorecase);
      assert forall j | 1 <= j < |scopes| :: scopes[1..][j - 1] == scopes[j];
    }
  }

  lemma {:induction false} LowerMeans(s: string, k: nat)
    requires k < |s|
    ensures 'A' <= s[k] <= 'Z' ==> Lower(s)[k] as int - s[k] as int == 'a' as int - 'A' as int
    ensures !('A' <= s[k] <= 'Z') ==> Lower(s)[k] == s[k]
  {
    if k > 0 { LowerMeans(s[1..], k - 1); }
  }

  /** The same letter, or if case is ignored the small and the capital one. */
  predicate SameLetter(c: char, d: char, ignorecase: bool) {
    c == d || (ignorecase && (CapitalOf(c, d) || CapitalOf(d, c)))
  }

  predicate CapitalOf(c: char, d: char) {
    'A' <= d <= 'Z' && c as int - 'a' as int == d as int - 'A' as int
  }

  /** A name matches an alias letter by letter. */
  lemma {:induction false} MatchesMeans(alias: string, name: string, ignorecase: bool)
    ensures !Matches(None, name, ignorecase)
    ensures Matches(Some(alias), name, ignorecase) <==>
            |alias| == |name| && forall k | 0 <= k < |name| :: SameLetter(alias[k], name[k], ignorecase)
  {
    forall k | 0 <= k < |alias| && k < |name|
      ensures SameLetter(alias[k], name[k], true) <==> Lower(alias)[k] == Lower(name)[k]
    {
      LowerMeans(alias, k);
      LowerMeans(name, k);
    }
    hide Lower;
    if |alias| == |name| && forall k | 0 <= k < |name| :: SameLetter(alias[k], name[k], ignorecase) {
      if ignorecase { assert Lower(alias) == Lower(name); } else { assert alias == name; }
    }
  }

  /** A symbol in the scope of an item means that item's attribute, or without a name the item, whatever scopes
      there are. */
  lemma ScopedMeans(
    scopes: seq<ScopeBlock>, tables: Tables, item: nat, name: string, ignorecase: bool, itemText: ItemText)
    ensures Lookup(scopes, tables, SymbolRef(Some(PointerTo(item)), Some(UnknownText(name))), ignorecase, itemText)
         == Get(tables, item, Some(name))
    ensures Lookup(scopes, tables, SymbolRef(Some(PointerTo(item)), None), ignorecase, itemText)
         == Some(PointerTo(item))
  {
  }

  /** A name without a scope means the innermost scope it is the alias of, whatever is defined. */
  lemma AliasMeans(scopes: seq<ScopeBlock>, tables: Tables, name: string, ignorecase: bool, itemText: ItemText, k: nat)
    requires ScanNumber(name).None? && k < |scopes| && Matches(scopes[k].alias, name, ignorecase)
    requires forall j | 0 <= j < k :: !Matches(scopes[j].alias, name, ignorecase)
    ensures Lookup(scopes, tables, Named(name), ignorecase, itemText)
         == Some(if scopes[k].item.Some? then PointerTo(scopes[k].item.value) else UNDEFINED)
  {
    AliasedIsFirst(scopes, name, ignorecase, k);
  }

  /** Any other name means what the innermost stacked scope that defines it says. */
  lemma NameMeans(scopes: seq<ScopeBlock>, tables: Tables, name: string, ignorecase: bool, itemText: ItemText)
    requires PlainName(scopes, name, ignorecase)
    ensures forall k: nat | DefinesFirst(scopes, tables, name, k) ::
              Lookup(scopes, tables, Named(name), ignorecase, itemText) == Get(tables, scopes[k].item.value, Some(name))
    ensures (forall j | 0 <= j < |scopes| :: !Defines(scopes[j], tables, name)) ==>
              Lookup(scopes, tables, Named(name), ignorecase, itemText) == None
  {
    hide Get, Aliased;
    forall k: nat | DefinesFirst(scopes, tables, name, k)
      ensures Lookup(scopes, tables, Named(name), ignorecase, itemText) == Get(tables, scopes[k].item.value, Some(name))
    {
      DefinerIsFirst(scopes, tables, name, k);
    }
    if forall j | 0 <= j < |scopes| :: !Defines(scopes[j], tables, name) {
      NoDefiner(scopes, tables, name);
    }
  }

  /** Scope `k` is the outermost stacked one. */
  ghost predicate IsOutermost(scopes: seq<ScopeBlock>, k: nat) {
    k < |scopes| && scopes[k].stacked && forall j | k < j < |scopes| :: !scopes[j].stacked
  }

  lemma {:induction false} OutermostIs(scopes: seq<ScopeBlock>, k: nat)
    requires IsOutermost(scopes, k)
    ensures Outermost(scopes) == Some(scopes[k])
  {
    if k > 0 {
      assert forall j | k - 1 < j < |scopes| - 1 :: scopes[1..][j] == scopes[j + 1];
      OutermostIs(scopes[1..], k - 1);
    } else {
      NoneStacked(scopes[1..]);
    }
  }

  lemma {:induction false} NoneStacked(scopes: seq<ScopeBlock>)
    requires forall j | 0 <= j < |scopes| :: !scopes[j].stacked
    ensures StackedOf(scopes) == []
  {
    if scopes != [] { NoneStacked(scopes[1..]); }
  }

  /** Only one table is changed by a store. */
  ghost predicate OnlyChanged(tables: Tables, after: Tables, item: nat) {
    forall i: nat | i != item :: (i in after <==> i in tables) && (i in after ==> after[i] == tables[i])
  }

  lemma PutChangesOne(tables: Tables, item: nat, name: Option<string>, value: Option<Value>, itemText: ItemText)
    requires Put(tables, item, name, value, itemText).Some?
    ensures OnlyChanged(tables, Put(tables, item, name, value, itemText).value, item)
  {
  }

  /** In the scope of an item a value is stored in that item's table and nowhere else, whatever scopes there are; in
      an undefined scope nothing is stored. */
  lemma {:induction false} ScopedStoreMeans(
    scopes: seq<ScopeBlock>, tables: Tables, item: nat, name: string, v: Value, itemText: ItemText)
    requires item in tables && name != "" && v.vtype != UndefinedType
    ensures var symbol := SymbolRef(Some(PointerTo(item)), Some(UnknownText(name)));
            var r := Store(scopes, tables, symbol, Some(v), itemText);
            && r.ok && OnlyChanged(tables, r.tables, item)
            && Get(r.tables, item, Some(name))
               == if LosesText(tables, item, name, v) then None else Some(Image(v, itemText))
    ensures Store(scopes, tables, SymbolRef(Some(UNDEFINED), Some(UnknownText(name))), Some(v), itemText)
         == Storing(false, tables)
  {
    hide Get, Put, Definer, Outermost;
    GetAfterPut(tables, item, name, v, itemText);
    PutChangesOne(tables, item, Some(name), Some(v), itemText);
  }

  /** Without a value, or with an undefined one, the name is deleted in the innermost stacked scope that defines it
      and nowhere else; if none does, nothing happens. */
  lemma {:induction false} RemovalMeans(
    scopes: seq<ScopeBlock>, tables: Tables, name: string, v: Option<Value>, itemText: ItemText)
    requires name != "" && (v.Some? ==> v.value.vtype == UndefinedType)
    ensures forall k: nat | DefinesFirst(scopes, tables, name, k) ::
              var r, item := Store(scopes, tables, Named(name), v, itemText), scopes[k].item.value;
              r.ok && OnlyChanged(tables, r.tables, item) && Get(r.tables, item, Some(name)) == None
    ensures (forall j | 0 <= j < |scopes| :: !Defines(scopes[j], tables, name)) ==>
              Store(scopes, tables, Named(name), v, itemText) == Storing(true, tables)
  {
    forall k: nat | DefinesFirst(scopes, tables, name, k)
      ensures var r, item := Store(scopes, tables, Named(name), v, itemText), scopes[k].item.value;
              r.ok && OnlyChanged(tables, r.tables, item) && Get(r.tables, item, Some(name)) == None
    {
      DefinerIsFirst(scopes, tables, name, k);
      PutChangesOne(tables, scopes[k].item.value, Some(name), v, itemText);
    }
    if forall j | 0 <= j < |scopes| :: !Defines(scopes[j], tables, name) {
      NoDefiner(scopes, tables, name);
    }
  }

  /** A number as a name means the item of the scope with that number. */
  lemma {:induction false} NumberMeans(scopes: seq<ScopeBlock>, tables: Tables, number: int, ignorecase: bool,
      itemText: ItemText)
    ensures Lookup(scopes, tables, SymbolRef(None, Some(NumberOf(number as real))), ignorecase, itemText)
         == match Numbered(StackedOf(scopes), number)
            case None => None
            case Some(s) => Some(if s.item.Some? then PointerTo(s.item.value) else UNDEFINED)
  {
    assert Trunc(number as real) == number;
  }

  /** A name that is defined is stored in the innermost scope that defines it. */
  lemma DefinedNameIsStoredThere(
    scopes: seq<ScopeBlock>, tables: Tables, name: string, v: Value, itemText: ItemText, k: nat)
    requires v.vtype != UndefinedType && DefinesFirst(scopes, tables, name, k)
    ensures var r := Store(scopes, tables, Named(name), Some(v), itemText);
            && r.ok && OnlyChanged(tables, r.tables, scopes[k].item.value)
            && Get(r.tables, scopes[k].item.value, Some(name))
               == if LosesText(tables, scopes[k].item.value, name, v) then None else Some(Image(v, itemText))
  {
    DefinerIsFirst(scopes, tables, name, k);
    var item := scopes[k].item.value;
    GetAfterPut(tables, item, name, v, itemText);
    PutChangesOne(tables, item, Some(name), Some(v), itemText);
  }

  /** A new name is stored in the outermost stacked scope. */
  lemma NewNameIsStoredOutermost(
    scopes: seq<ScopeBlock>, tables: Tables, name: string, v: Value, itemText: ItemText, k: nat)
    requires v.vtype != UndefinedType && name != "" && IsOutermost(scopes, k)
    requires forall j | 0 <= j < |scopes| :: !Defines(scopes[j], tables, name)
    ensures var r := Store(scopes, tables, Named(name), Some(v), itemText);
            && (r.ok <==> scopes[k].item.Some? && scopes[k].item.value in tables)
            && (r.ok ==> OnlyChanged(tables, r.tables, scopes[k].item.value)
                         && Get(r.tables, scopes[k].item.value, Some(name))
                            == if LosesText(tables, scopes[k].item.value, name, v) then None
                               else Some(Image(v, itemText)))
  {
    NoDefiner(scopes, tables, name);
    OutermostIs(scopes, k);
    if scopes[k].item.Some? && scopes[k].item.value in tables {
      GetAfterPut(tables, scopes[k].item.value, name, v, itemText);
      PutChangesOne(tables, scopes[k].item.value, Some(name), Some(v), itemText);
    }
  }

  /** So a new name is still there when scopes have been left again, as long as a stacked scope is left. */
  lemma NewNameOutlivesScopes(scopes: seq<ScopeBlock>, tables: Tables, name: string, v: Value, ignorecase: bool,
                              itemText: ItemText, k: nat, m: nat)
    requires v.vtype != UndefinedType && PlainName(scopes, name, ignorecase) && IsOutermost(scopes, k) && m <= k
    requires forall j | 0 <= j < |scopes| :: !Defines(scopes[j], tables, name)
    requires scopes[k].item.Some? ==> !LosesText(tables, scopes[k].item.value, name, v)
    ensures var r := Store(scopes, tables, Named(name), Some(v), itemText);
            r.ok ==> Lookup(scopes[m..], r.tables, Named(name), ignorecase, itemText) == Some(Image(v, itemText))
  {
    hide Put, Get, Definer, Aliased, Image;
    var r := Store(scopes, tables, Named(name), Some(v), itemText);
    NewNameIsStoredOutermost(scopes, tables, name, v, itemText, k);
    if r.ok {
      var item, left := scopes[k].item.value, scopes[m..];
      NoneAliased(scopes, name, ignorecase);
      NoneAliased(left, name, ignorecase);
      GetElsewhere(tables, r.tables, item, name);
      forall j | 0 <= j < |left| ensures !Defines(left[j], tables, name) {
        assert left[j] == scopes[m + j] && !Defines(scopes[m + j], tables, name);
      }
      NoDefiner(left, tables, name);
      assert left[k - m] == scopes[k];
      DefinerMeets(left, tables, r.tables, Some(name), item);
    }
  }

  lemma GetElsewhere(tables: Tables, after: Tables, item: nat, name: string)
    requires OnlyChanged(tables, after, item)
    ensures forall i: nat | i != item :: Get(after, i, Some(name)) == Get(tables, i, Some(name))
  {
  }

  // ---------------------------------------------------------------- the stack

  class Stack {
    const itemText: ItemText
    var scopes: seq<ScopeBlock>
    var tables: Tables

    constructor (tables: Tables, itemText: ItemText)
      ensures scopes == [] && this.tables == tables && this.itemText == itemText
    {
      this.scopes, this.tables, this.itemText := [], tables, itemText;
    }

    /** create_scope_block: the new scope is the innermost one. */
    method Create(alias: Option<string>, item: Option<nat>)
      modifies this
      ensures scopes == [ScopeBlock(alias, item, true)] + old(scopes) && tables == old(tables)
      ensures Numbered(StackedOf(scopes), 0) == Some(scopes[0])
    {
      scopes := [ScopeBlock(alias, item, true)] + scopes;
    }

    /** The search of symbol_item and symbol_value through the stacked scopes. */
    method FindDefiner(name: Option<string>) returns (item: Option<nat>, value: Option<Value>)
      ensures item == Definer(scopes, tables, name)
      ensures value == if item.Some? then Get(tables, item.value, name) else None
    {
      assert scopes[0..] == scopes;
      for i := 0 to |scopes|
        invariant Definer(scopes, tables, name) == Definer(scopes[i..], tables, name)
      {
        var s := scopes[i];
        assert scopes[i..][1..] == scopes[i + 1..];
        if s.stacked && s.item.Some? {
          value := Get(tables, s.item.value, name);
          if value.Some? {
            return s.item, value;
          }
        }
      }
      return None, None;
    }

    /** symbol_value */
    method SymbolValue(symbol: SymbolRef, ignorecase: bool) returns (v: Option<Value>)
      ensures v == Lookup(scopes, tables, symbol, ignorecase, itemText)
    {
      var name := NameText(symbol.name, itemText);
      if symbol.scope.Some? && symbol.scope.value.vtype == PointerType {
        v := if name.Some? then Get(tables, symbol.scope.value.item, name)
            else Some(PointerTo(symbol.scope.value.item));
        return;
      }
      if symbol.name.Some? && NumberValue(symbol.name.value).vtype == NumberType {
        var found := ScopeByNumber(scopes, Trunc(NumberIn(symbol.name.value)));
        return if found.Some? then Some(ScopeValue(found.value)) else None;
      }
      if symbol.scope.None? && name.Some? {
        assert scopes[0..] == scopes;
        for i := 0 to |scopes|
          invariant Aliased(scopes, name.value, ignorecase) == Aliased(scopes[i..], name.value, ignorecase)
        {
          assert scopes[i..][1..] == scopes[i + 1..];
          if Matches(scopes[i].alias, name.value, ignorecase) {
            return Some(ScopeValue(scopes[i]));
          }
        }
      }
      var item;
      item, v := FindDefiner(name);
    }

    /** store_symbol_definition; it reads the stack, which must not be empty. */
    method StoreSymbol(symbol: SymbolRef, value: Option<Value>) returns (ok: bool)
      requires scopes != []
      modifies this`tables
      ensures Storing(ok, tables) == Store(scopes, old(tables), symbol, value, itemText)
    {
      if symbol.scope.Some? && symbol.scope.value.vtype == UndefinedType {
        return false;
      }
      var name := None;
      if symbol.name.Some? && symbol.name.value.vtype != UndefinedType {
        name := NameText(symbol.name, itemText);
      }
      var item := None;
      if symbol.scope.Some? && symbol.scope.value.vtype == PointerType {
        item := Some(symbol.scope.value.item);
      } else if symbol.name.Some? {
        var v;
        item, v := FindDefiner(NameText(symbol.name, itemText));
      }
      if value.None? || value.value.vtype == UndefinedType {
        ok := true;
        if item.Some? {
          ok := PutAttribute(item.value, name, value);
        }
      } else {
        if item.None? {
          var k := |scopes| - 1;
          assert scopes == scopes[..k + 1];
          while k >= 0 && !scopes[k].stacked
            invariant tables == old(tables)
            invariant -1 <= k < |scopes| && Outermost(scopes) == Outermost(scopes[..k + 1])
          {
            StackedBefore(scopes, k);
            k := k - 1;
          }
          assert scopes[..0] == [];
          if k >= 0 {
            StackedBefore(scopes, k);
            item := scopes[k].item;
          }
        }
        if item.Some? {
          ok := PutAttribute(item.value, name, value);
        } else {
          ok := false;
        }
      }
    }

    /** symb_put_attr */
    method PutAttribute(item: nat, name: Option<string>, value: Option<Value>) returns (ok: bool)
      modifies this`tables
      ensures match Put(old(tables), item, name, value, itemText)
              case Some(after) => ok && tables == after
              case None => !ok && tables == old(tables)
    {
      if item !in tables || name.None? || name.value == "" {
        return false;
      }
      var key, t := Lower(name.value), tables[item];
      if value.Some? && value.value.vtype == PointerType {
        t := t[key := Entry(None, Some(value.value.item))];
      } else if value.None? || value.value.vtype == UndefinedType {
        t := t - {key};
      } else if key in t {
        var e := t[key];
        var s := value.value.s;
        if e.text.Some? {
          s := Some(StringOf(value.value, itemText));
        }
        if e.text.None? || e.text != s {
          e := e.(text := s);
        }
        t := t[key := e.(item := None)];
      } else {
        t := t[key := Entry(Some(StringOf(value.value, itemText)), None)];
      }
      tables := tables[item := t];
      ok := true;
    }

    /** copy_scope_stack: from the outermost scope inwards, so that every lookup through the copy alone
        is a lookup through the original. */
    method CopyFrom(from: Stack)
      requires from != this && scopes == [] && from.tables == tables && from.itemText == itemText
      modifies this`scopes
      ensures scopes == from.scopes
    {
      for i := |from.scopes| downto 0
        invariant scopes == from.scopes[i..]
      {
        scopes := [from.scopes[i]] + scopes;
      }
    }
  }
}
