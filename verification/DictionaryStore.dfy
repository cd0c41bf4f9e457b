/** Registered dictionaries: the `dictionaries` table and its cache by code (`src/store.rs`). */
module DictionaryStore {
  import opened Prelude
  import opened StoreRows

  type DictionaryTable = map<string, DictionaryRow>
  type DictionaryCache = map<string, DictionaryInfo>

  datatype DictionaryState = DictionaryState(table: DictionaryTable, cache: DictionaryCache)

  /** The upsert of `register_dictionary`: a known code keeps its creation time. */
  function UpsertDictionary(table: DictionaryTable, info: DictionaryInfo): DictionaryTable {
    table[info.code := if info.code in table then table[info.code].(sourceUrl := info.sourceUrl) else BindDictionary(info)]
  }

  function Register(s: DictionaryState, info: DictionaryInfo): DictionaryState {
    var table := UpsertDictionary(s.table, info);
    DictionaryState(table, s.cache[info.code := ReadDictionary(info.code, table[info.code])])
  }

  function Reload(table: DictionaryTable): DictionaryCache { map code | code in table :: ReadDictionary(code, table[code]) }

  method ReloadDictionaries(table: DictionaryTable) returns (cache: DictionaryCache)
    ensures cache == Reload(table)
  {
    cache := map[];
    var rest := table.Keys;
    while rest != {}
      invariant rest <= table.Keys
      invariant cache.Keys == table.Keys - rest
      invariant forall code :: code in cache ==> cache[code] == ReadDictionary(code, table[code])
    {
      var code :| code in rest;
      cache := cache[code := ReadDictionary(code, table[code])];
      rest := rest - {code};
    }
  }

  predicate Match(s: DictionaryState) { s.cache == Reload(s.table) }

  lemma RegisterMatches(s: DictionaryState, info: DictionaryInfo)
    requires Match(s)
    ensures Match(Register(s, info))
  {
    var t := Register(s, info);
    assert t.cache.Keys == t.table.Keys;
  }

  /** Registering again replaces the URL and keeps the first creation time. */
  lemma RegisterKeepsCreation(s: DictionaryState, info: DictionaryInfo)
    requires Match(s)
    ensures var d := Register(s, info).cache[info.code];
            && d.sourceUrl == info.sourceUrl
            && d.createdAt == if info.code in s.cache then s.cache[info.code].createdAt else info.createdAt
  {
    DictionaryRoundTrip(info);
  }
}
