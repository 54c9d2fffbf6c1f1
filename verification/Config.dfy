/** rune::config: the sections of an INI file flattened into one table of strings. */
module Config {
  import opened Wrappers
  import opened Ini

  /** "section.key", or the key alone in the section without a name. */
  function FlatKey(section: string, key: string): string {
    if section == "" then key else section + "." + key
  }

  predicate Has(m: SectionMap, section: string, key: string) {
    section in m && key in m[section]
  }

  /** The value at a flat key comes from one of the pairs that are flattened to it. */
  ghost predicate Explained(m: SectionMap, flat: string, value: string) {
    exists s, k :: Has(m, s, k) && FlatKey(s, k) == flat && m[s][k] == value
  }

  ghost predicate IsFlat(m: SectionMap, flat: string) {
    exists s, k :: Has(m, s, k) && FlatKey(s, k) == flat
  }

  /** The table after loading m: every pair of m is there, nothing else has changed. Which of several pairs
      with one flat key stays is up to the order of the hash tables. */
  ghost predicate Flattened(before: ValueMap, after: ValueMap, m: SectionMap) {
    && (forall f :: IsFlat(m, f) ==> f in after && Explained(m, f, after[f]))
    && forall f :: !IsFlat(m, f) ==> (f in after <==> f in before) && (f in before ==> after[f] == before[f])
  }

  // ---------------------------------------------------------------------------
  // Which keys collide

  /** No other pair with this flat key has another value. */
  ghost predicate Unambiguous(m: SectionMap, section: string, key: string)
    requires Has(m, section, key)
  {
    forall s, k :: Has(m, s, k) && FlatKey(s, k) == FlatKey(section, key) ==> m[s][k] == m[section][key]
  }

  ghost predicate NoDot(s: string) {
    forall i :: 0 <= i < |s| ==> s[i] != '.'
  }

  /** Sections without dots, and no dots in the keys outside sections. */
  ghost predicate Dotless(m: SectionMap) {
    forall s :: s in m ==> NoDot(s) && (s == "" ==> forall k :: k in m[s] ==> NoDot(k))
  }

  /** The section ends at the first dot, if there is one. */
  lemma FlatOnce(s: string, k: string, s': string, k': string)
    requires NoDot(s) && NoDot(s') && (s == "" ==> NoDot(k)) && (s' == "" ==> NoDot(k'))
    requires FlatKey(s, k) == FlatKey(s', k')
    ensures s == s' && k == k'
  {
    FlatParts(s, k);
    FlatParts(s', k');
  }

  lemma FlatParts(s: string, k: string)
    requires NoDot(s) && (s == "" ==> NoDot(k))
    ensures var f := FlatKey(s, k); var i := Index(f, '.');
      if s == "" then i == |f| && k == f else i == |s| < |f| && s == f[..i] && k == f[i + 1..]
  {
    if s == "" {
      IndexOf(k, '.', "");
    } else {
      IndexOf(s, '.', k);
      assert s + "." + k == s + ['.'] + k;
    }
  }

  lemma DotlessUnambiguous(m: SectionMap, section: string, key: string)
    requires Dotless(m) && Has(m, section, key)
    ensures Unambiguous(m, section, key)
  {
    forall s, k | Has(m, s, k) && FlatKey(s, k) == FlatKey(section, key)
      ensures m[s][k] == m[section][key]
    {
      FlatOnce(s, k, section, key);
    }
  }

  /** An unambiguous pair is found after loading, whatever the order. */
  lemma FoundAfterwards(before: ValueMap, after: ValueMap, m: SectionMap, section: string, key: string)
    requires Flattened(before, after, m) && Has(m, section, key) && Unambiguous(m, section, key)
    ensures FlatKey(section, key) in after && after[FlatKey(section, key)] == m[section][key]
  {
    var f := FlatKey(section, key);
    assert IsFlat(m, f);
    var s, k :| Has(m, s, k) && FlatKey(s, k) == f && m[s][k] == after[f];
  }

  // ---------------------------------------------------------------------------

  type Done = iset<(string, string)>

  ghost predicate Touched(m: SectionMap, done: Done, f: string) {
    exists s, k :: Has(m, s, k) && (s, k) in done && FlatKey(s, k) == f
  }

  /** The table when the pairs in `done` are through. */
  ghost predicate Part(before: ValueMap, after: ValueMap, m: SectionMap, done: Done) {
    && (forall f :: Touched(m, done, f) ==> f in after && Explained(m, f, after[f]))
    && forall f :: !Touched(m, done, f) ==> (f in after <==> f in before) && (f in before ==> after[f] == before[f])
  }

  lemma PartNext(before: ValueMap, after: ValueMap, m: SectionMap, done: Done, s: string, k: string)
    requires Part(before, after, m, done) && Has(m, s, k)
    ensures Part(before, after[FlatKey(s, k) := m[s][k]], m, done + iset{(s, k)})
  {
    hide Touched, Explained, FlatKey;
    var f, done' := FlatKey(s, k), done + iset{(s, k)};
    ExplainedBy(m, s, k);
    forall g
      ensures Touched(m, done', g) <==> g == f || Touched(m, done, g)
    {
      TouchedNext(m, done, s, k, g);
    }
  }

  lemma ExplainedBy(m: SectionMap, s: string, k: string)
    requires Has(m, s, k)
    ensures Explained(m, FlatKey(s, k), m[s][k])
  {
  }

  /** One more pair touches one more key. */
  lemma TouchedNext(m: SectionMap, done: Done, s: string, k: string, f: string)
    requires Has(m, s, k)
    ensures Touched(m, done + iset{(s, k)}, f) <==> f == FlatKey(s, k) || Touched(m, done, f)
  {
    hide FlatKey, Has;
    var done' := done + iset{(s, k)};
    if f == FlatKey(s, k) {
      assert (s, k) in done';
    } else if Touched(m, done, f) {
      var s', k' :| Has(m, s', k') && (s', k') in done && FlatKey(s', k') == f;
      assert (s', k') in done';
    }
  }

  lemma PartAll(before: ValueMap, after: ValueMap, m: SectionMap, done: Done)
    requires Part(before, after, m, done) && forall s, k :: Has(m, s, k) ==> (s, k) in done
    ensures Flattened(before, after, m)
  {
    forall f
      ensures Touched(m, done, f) <==> IsFlat(m, f)
    {
    }
  }

  lemma PartNone(before: ValueMap, m: SectionMap)
    ensures Part(before, before, m, iset{})
  {
  }

  // ---------------------------------------------------------------------------
  // Loading in one order

  /** A section and its keys, in the order in which the loops come to them. */
  datatype Turn = Turn(section: string, keys: seq<string>)
  type Order = seq<Turn>

  function Names(order: Order): (s: seq<string>)
    ensures |s| == |order| && forall i :: 0 <= i < |s| ==> s[i] == order[i].section
  {
    seq(|order|, i requires 0 <= i < |order| => order[i].section)
  }

  ghost predicate TurnOf(turn: Turn, m: SectionMap) {
    turn.section in m && Lists(turn.keys, m[turn.section].Keys)
  }

  ghost predicate Turns(order: Order, m: SectionMap) {
    forall i :: 0 <= i < |order| ==> TurnOf(order[i], m)
  }

  /** Every section once, and in each turn every key of its section once. */
  ghost predicate IsOrder(order: Order, m: SectionMap) {
    Turns(order, m) && Lists(Names(order), m.Keys)
  }

  /** The inner loop: one assignment after the other. */
  function LoadKeys(t: ValueMap, values: ValueMap, section: string, keys: seq<string>): ValueMap
    requires forall k :: k in keys ==> k in values
  {
    if keys == [] then t
    else
      var n := |keys| - 1;
      LoadKeys(t, values, section, keys[..n])[FlatKey(section, keys[n]) := values[keys[n]]]
  }

  /** The outer loop. */
  ghost function LoadOrder(t: ValueMap, m: SectionMap, order: Order): ValueMap
    requires Turns(order, m)
  {
    if order == [] then t
    else
      var n := |order| - 1;
      assert TurnOf(order[n], m);
      LoadKeys(LoadOrder(t, m, order[..n]), m[order[n].section], order[n].section, order[n].keys)
  }

  /** The pairs of the first turns. */
  ghost function Pairs(order: Order): Done {
    iset s, k | (exists i :: 0 <= i < |order| && order[i].section == s && k in order[i].keys) :: (s, k)
  }

  lemma {:induction false} KeysPart(before: ValueMap, t: ValueMap, m: SectionMap, done: Done, section: string, keys: seq<string>)
    requires Part(before, t, m, done) && section in m && forall k :: k in keys ==> k in m[section]
    ensures Part(before, LoadKeys(t, m[section], section, keys), m, done + iset k | k in keys :: (section, k))
    decreases |keys|
  {
    hide Part;
    var all := done + iset k | k in keys :: (section, k);
    if keys == [] {
      assert all == done;
    } else {
      var n := |keys| - 1;
      var some := done + iset k | k in keys[..n] :: (section, k);
      KeysPart(before, t, m, done, section, keys[..n]);
      PartNext(before, LoadKeys(t, m[section], section, keys[..n]), m, some, section, keys[n]);
      assert all == some + iset{(section, keys[n])};
    }
  }

  lemma {:induction false} OrderPart(before: ValueMap, m: SectionMap, order: Order)
    requires Turns(order, m)
    ensures Part(before, LoadOrder(before, m, order), m, Pairs(order))
    decreases |order|
  {
    hide Part;
    if order == [] {
      PartNone(before, m);
      assert Pairs(order) == iset{};
    } else {
      var n := |order| - 1;
      var turn := order[n];
      assert TurnOf(turn, m);
      OrderPart(before, m, order[..n]);
      KeysPart(before, LoadOrder(before, m, order[..n]), m, Pairs(order[..n]), turn.section, turn.keys);
      assert Pairs(order) == Pairs(order[..n]) + iset k | k in turn.keys :: (turn.section, k);
    }
  }

  /** Whatever the order, every pair is there afterwards and nothing else has changed. */
  lemma OrderFlattens(before: ValueMap, m: SectionMap, order: Order)
    requires IsOrder(order, m)
    ensures Flattened(before, LoadOrder(before, m, order), m)
  {
    OrderPart(before, m, order);
    forall s, k | Has(m, s, k)
      ensures (s, k) in Pairs(order)
    {
      assert s in Names(order);
      var i :| 0 <= i < |order| && order[i].section == s;
      assert TurnOf(order[i], m);
    }
    PartAll(before, LoadOrder(before, m, order), m, Pairs(order));
  }

  lemma {:induction false} LastKeys(t: ValueMap, values: ValueMap, section: string, keys: seq<string>, k: string)
    requires (forall k :: k in keys ==> k in values) && k in keys
    ensures FlatKey(section, k) in LoadKeys(t, values, section, keys)
    ensures LoadKeys(t, values, section, keys)[FlatKey(section, k)] == values[k]
    decreases |keys|
  {
    var n := |keys| - 1;
    if keys[n] != k {
      FlatSame(section, k, keys[n]);
      LastKeys(t, values, section, keys[..n], k);
    }
  }

  /** In one section different keys have different flat keys. */
  lemma FlatSame(section: string, k: string, k': string)
    ensures FlatKey(section, k) == FlatKey(section, k') ==> k == k'
  {
    if section != "" {
      var n := |section| + 1;
      assert FlatKey(section, k)[n..] == k && FlatKey(section, k')[n..] == k';
    }
  }

  lemma {:induction false} Listing(all: set<string>) returns (list: seq<string>)
    ensures Lists(list, all)
    decreases |all|
  {
    list := [];
    if all != {} {
      var x :| x in all;
      var rest := Listing(all - {x});
      list := rest + [x];
    }
  }

  lemma {:induction false} OrderOf(m: SectionMap, some: set<string>) returns (order: Order)
    requires some <= m.Keys
    ensures Turns(order, m) && Lists(Names(order), some)
    decreases |some|
  {
    order := [];
    if some != {} {
      var x :| x in some;
      var rest := OrderOf(m, some - {x});
      var keys := Listing(m[x].Keys);
      order := rest + [Turn(x, keys)];
      LastTurn(m, some, x, rest, keys);
    }
  }

  lemma LastTurn(m: SectionMap, some: set<string>, x: string, rest: Order, keys: seq<string>)
    requires some <= m.Keys && x in some && Turns(rest, m) && Lists(Names(rest), some - {x}) && Lists(keys, m[x].Keys)
    ensures Turns(rest + [Turn(x, keys)], m) && Lists(Names(rest + [Turn(x, keys)]), some)
  {
    var order := rest + [Turn(x, keys)];
    assert Names(order) == Names(rest) + [x];
    forall i | 0 <= i < |order| ensures TurnOf(order[i], m) { if i < |rest| { assert TurnOf(rest[i], m); } }
  }

  /** After loading in this order the flat key of the pair does not have the pair's value. */
  ghost predicate Loses(before: ValueMap, m: SectionMap, order: Order, section: string, key: string)
    requires Has(m, section, key)
  {
    && IsOrder(order, m)
    && var t := LoadOrder(before, m, order);
       FlatKey(section, key) !in t || t[FlatKey(section, key)] != m[section][key]
  }

  /** There is an order that loses the value of a pair exactly if another pair has the same flat key and
      another value. */
  lemma LostIff(before: ValueMap, m: SectionMap, section: string, key: string)
    requires Has(m, section, key)
    ensures (exists order :: Loses(before, m, order, section, key)) <==> !Unambiguous(m, section, key)
  {
    hide Lists, Flattened, LoadOrder;
    if Unambiguous(m, section, key) {
      forall order: Order
        ensures !Loses(before, m, order, section, key)
      {
        if IsOrder(order, m) {
          OrderFlattens(before, m, order);
          FoundAfterwards(before, LoadOrder(before, m, order), m, section, key);
        }
      }
    } else {
      var order := LosingOrder(before, m, section, key);
      assert Loses(before, m, order, section, key);
    }
  }

  /** The order that comes to the section of the other pair last. */
  lemma LosingOrder(before: ValueMap, m: SectionMap, section: string, key: string) returns (order: Order)
    requires Has(m, section, key) && !Unambiguous(m, section, key)
    ensures Loses(before, m, order, section, key)
  {
    hide Lists;
    var s, k :| Has(m, s, k) && FlatKey(s, k) == FlatKey(section, key) && m[s][k] != m[section][key];
    var rest := OrderOf(m, m.Keys - {s});
    var keys := Listing(m[s].Keys);
    order := rest + [Turn(s, keys)];
    LastTurn(m, m.Keys, s, rest, keys);
    ListsHas(keys, m[s].Keys, k);
    assert order[..|order| - 1] == rest;
    LastKeys(LoadOrder(before, m, rest), m[s], s, keys, k);
  }

  lemma ListsHas(list: seq<string>, all: set<string>, x: string)
    requires Lists(list, all) && x in all
    ensures x in list && forall y :: y in list ==> y in all
  {
  }

  // ---------------------------------------------------------------------------

  /** The table is what loading in some order makes of the one before. */
  ghost predicate LoadedInSomeOrder(before: ValueMap, after: ValueMap, m: SectionMap) {
    exists order :: IsOrder(order, m) && after == LoadOrder(before, m, order)
  }

  class Values {
    var configValues: ValueMap

    constructor ()
      ensures configValues == map[]
    {
      configValues := map[];
    }

    /** load_config: section by section, in the order of the hash tables. */
    method LoadConfig(content: Option<string>)
      modifies this
      ensures var m := if content.None? then map[] else ParseText(content.value).sections;
        LoadedInSomeOrder(old(configValues), configValues, m)
    {
      hide LoadOrder, ParseText, Lists;
      var reader := new INIReader();
      reader.Parse(content);
      ghost var m, before := reader.sectionMap, configValues;
      ghost var order: Order := [];
      NoTurns(before, m);
      var sections := reader.GetSections();
      var i := 0;
      while i < |sections|
        invariant 0 <= i <= |sections| && reader.sectionMap == m
        invariant Turns(order, m) && Names(order) == sections[..i]
        invariant configValues == LoadOrder(before, m, order)
      {
        ListsIn(sections, m.Keys, i);
        ghost var turn := LoadSection(reader, sections[i]);
        OneTurn(before, m, order, turn);
        order := order + [turn];
        i := i + 1;
      }
      assert sections[..i] == sections;
      assert IsOrder(order, m);
    }

    /** The inner loop. */
    method LoadSection(reader: INIReader, section: string) returns (ghost turn: Turn)
      requires section in reader.sectionMap
      modifies this
      ensures turn.section == section && TurnOf(turn, reader.sectionMap)
      ensures (forall k :: k in turn.keys ==> k in reader.sectionMap[section])
      ensures configValues == LoadKeys(old(configValues), reader.sectionMap[section], section, turn.keys)
    {
      ghost var values := reader.sectionMap[section];
      var listed := reader.GetKeys(section);
      var keys := if listed.Some? then listed.value else [];
      var n := 0;
      while n < |keys|
        invariant 0 <= n <= |keys| && reader.sectionMap[section] == values && section in reader.sectionMap
        invariant configValues == LoadKeys(old(configValues), values, section, keys[..n])
      {
        var key := keys[n];
        var value := reader.GetValue(section, key);
        assert key in keys;
        var configKey := if section == "" then key else section + "." + key;
        configValues := configValues[configKey := if value.Some? then value.value else ""];
        n := n + 1;
        assert keys[..n][..n - 1] == keys[..n - 1];
      }
      assert keys[..n] == keys;
      turn := Turn(section, keys);
    }

    /** get_string */
    method GetString(key: string, defaultValue: string) returns (value: string)
      ensures value == if key in configValues then configValues[key] else defaultValue
    {
      if key in configValues {
        return configValues[key];
      }
      value := defaultValue;
    }
  }

  lemma NoTurns(t: ValueMap, m: SectionMap)
    ensures LoadOrder(t, m, []) == t
  {
  }

  lemma ListsIn(list: seq<string>, all: set<string>, i: nat)
    requires Lists(list, all) && i < |list|
    ensures list[i] in all
  {
  }

  lemma OneTurn(t: ValueMap, m: SectionMap, order: Order, turn: Turn)
    requires Turns(order, m) && TurnOf(turn, m)
    ensures Turns(order + [turn], m) && Names(order + [turn]) == Names(order) + [turn.section]
    ensures LoadOrder(t, m, order + [turn]) == LoadKeys(LoadOrder(t, m, order), m[turn.section], turn.section, turn.keys)
  {
    var more := order + [turn];
    assert more[..|order|] == order;
    forall i | 0 <= i < |more| ensures TurnOf(more[i], m) { if i < |order| { assert TurnOf(order[i], m); } }
  }

  /** A configuration printed to a file, loaded, and asked for one of its values. */
  method LoadAndGet(config: Values, doc: Document, section: string, key: string, defaultValue: string) returns (value: string)
    requires Printable(doc) && Has(WithSections(map[], doc), section, key)
    modifies config
    ensures Unambiguous(WithSections(map[], doc), section, key) ==> value == WithSections(map[], doc)[section][key]
    ensures Dotless(WithSections(map[], doc)) ==> value == WithSections(map[], doc)[section][key]
  {
    hide Printable, ParseText, Print, WithSections, Flattened, Unambiguous, Dotless;
    ghost var before, m := config.configValues, WithSections(map[], doc);
    ParseInvertsPrint(doc);
    config.LoadConfig(Some(Print(doc)));
    ghost var order :| IsOrder(order, m) && config.configValues == LoadOrder(before, m, order);
    OrderFlattens(before, m, order);
    if Dotless(m) {
      DotlessUnambiguous(m, section, key);
    }
    if Unambiguous(m, section, key) {
      FoundAfterwards(before, config.configValues, m, section, key);
    }
    value := config.GetString(FlatKey(section, key), defaultValue);
  }
}
