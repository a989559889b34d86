/** The unordered map backend, the string pool and the namespace of pools,
    schemas and collections. Go's maps become `map` fields that the methods
    reassign; a loop over a Go map, whose order is unspecified, picks an
    arbitrary key that has not been visited yet. The process-wide string
    pool is passed to the map backend as an explicit argument. */
module Collections {
  import opened Keys
  import opened Outcomes
  import Avl
  import RedBlack
  import BTrees

  /** Each key occurs at most once. */
  ghost predicate NoDuplicates<T>(s: seq<T>)
  {
    forall i, j :: 0 <= i < j < |s| ==> s[i] != s[j]
  }

  // ---------------------------------------------------------------------
  // StringPoolManager

  /** `StringPoolManager`: the interned strings, each stored under itself. */
  class StringPool {
    var pools: map<string, string>

    ghost predicate Valid()
      reads this
    {
      forall s :: s in pools ==> pools[s] == s
    }

    constructor ()
      ensures Valid() && pools == map[]
    {
      pools := map[];
    }

    /** `StringPoolManager.Get`: the interned copy of `str`, which is equal to
        it; an unseen string is added, a seen one adds nothing, so a second
        call with the same string leaves the pool as the first left it. */
    method Get(str: string) returns (r: string)
      requires Valid()
      modifies this
      ensures Valid() && r == str
      ensures pools == old(pools)[str := str]
      ensures str in old(pools) ==> pools == old(pools)
    {
      if str in pools {
        return pools[str];
      }
      pools := pools[str := str];
      return str;
    }
  }

  // ---------------------------------------------------------------------
  // MapCollection

  /** `MapCollection`: keys to values in a Go map. */
  class MapCollection<V> {
    var data: map<Key, V>

    /** `NewMapCollection`. */
    constructor ()
      ensures data == map[]
    {
      data := map[];
    }

    /** `MapCollection.Insert`: a present key is refused and the map kept;
        otherwise the key is bound to the value. */
    method Insert(sp: StringPool, key: Key, value: V) returns (err: Option<Error>)
      requires sp.Valid()
      modifies this, sp
      ensures sp.Valid() && sp.pools == old(sp.pools)[key := key]
      ensures err.Some? <==> key in old(data)
      ensures err.Some? ==> err == Some(DuplicateKey) && data == old(data)
      ensures err.None? ==> data == old(data)[key := value]
    {
      var k := sp.Get(key);
      if k in data {
        return Some(DuplicateKey);
      }
      data := data[k := value];
      return None;
    }

    /** `MapCollection.Get`: the stored value, or "not found". */
    method Get(sp: StringPool, key: Key) returns (r: Result<V>)
      requires sp.Valid()
      modifies sp
      ensures sp.Valid() && sp.pools == old(sp.pools)[key := key]
      ensures r.Ok? <==> key in data
      ensures r.Ok? ==> r.value == data[key]
      ensures r.Err? ==> r.error == NotFound
    {
      var k := sp.Get(key);
      if k !in data {
        return Err(NotFound);
      }
      return Ok(data[k]);
    }

    /** `MapCollection.GetRange`: every key in `[lo, hi]` exactly once, in
        the map's unspecified order. */
    method GetRange(sp: StringPool, lo: Key, hi: Key) returns (r: seq<Key>)
      requires sp.Valid()
      modifies sp
      ensures sp.Valid() && sp.pools == old(sp.pools)[lo := lo][hi := hi]
      ensures forall k :: k in r <==> k in data && InRange(k, lo, hi)
      ensures NoDuplicates(r)
    {
      var min := sp.Get(lo);
      var max := sp.Get(hi);
      r := [];
      var rest := data.Keys;
      while rest != {}
        invariant rest <= data.Keys
        invariant forall k :: k in r <==> k in data && k !in rest && InRange(k, min, max)
        invariant NoDuplicates(r)
        decreases rest
      {
        var k :| k in rest;
        if InRange(k, min, max) {
          r := r + [k];
        }
        rest := rest - {k};
      }
    }

    /** `MapCollection.Update`: a missing key is reported and the map kept;
        otherwise only that key's value changes. */
    method Update(sp: StringPool, key: Key, value: V) returns (err: Option<Error>)
      requires sp.Valid()
      modifies this, sp
      ensures sp.Valid() && sp.pools == old(sp.pools)[key := key]
      ensures err.Some? <==> key !in old(data)
      ensures err.Some? ==> err == Some(NotFound) && data == old(data)
      ensures err.None? ==> data == old(data)[key := value]
    {
      var k := sp.Get(key);
      if k !in data {
        return Some(NotFound);
      }
      data := data[k := value];
      return None;
    }

    /** `MapCollection.Remove`: a missing key is reported and the map kept;
        otherwise only that key goes. */
    method Remove(sp: StringPool, key: Key) returns (err: Option<Error>)
      requires sp.Valid()
      modifies this, sp
      ensures sp.Valid() && sp.pools == old(sp.pools)[key := key]
      ensures err.Some? <==> key !in old(data)
      ensures err.Some? ==> err == Some(NotFound) && data == old(data)
      ensures err.None? ==> data == old(data) - {key}
    {
      var k := sp.Get(key);
      if k !in data {
        return Some(NotFound);
      }
      data := data - {k};
      return None;
    }
  }

  // ---------------------------------------------------------------------
  // TreeManager

  /** `TreeManager`: a collection and the backend that stores it. */
  datatype TreeManager<V> =
    | AvlIndex(avl: Avl.AvlTree<V>)
    | RedBlackIndex(redBlack: RedBlack.RedBlackTree<V>)
    | BTreeIndex(btree: BTrees.BTree<V>)
    | MapIndex(hash: MapCollection<V>)

  /** `NewTreeManager`: "avl", "redblack" and "btree" select the ordered
      backends, and any other tag the map backend; the backend is new and
      empty. */
  method NewTreeManager<V>(treeType: string) returns (m: TreeManager<V>)
    ensures m.AvlIndex? <==> treeType == "avl"
    ensures m.RedBlackIndex? <==> treeType == "redblack"
    ensures m.BTreeIndex? <==> treeType == "btree"
    ensures m.AvlIndex? ==> fresh(m.avl) && m.avl.Valid() && m.avl.root.Nil?
    ensures m.RedBlackIndex? ==> fresh(m.redBlack) && m.redBlack.Valid() && m.redBlack.root.Nil?
    ensures m.BTreeIndex? ==> fresh(m.btree) && m.btree.Valid() && BTrees.Inorder(m.btree.root) == []
    ensures m.MapIndex? ==> fresh(m.hash) && m.hash.data == map[]
  {
    if treeType == "avl" {
      var t := new Avl.AvlTree();
      m := AvlIndex(t);
    } else if treeType == "redblack" {
      var t := new RedBlack.RedBlackTree();
      m := RedBlackIndex(t);
    } else if treeType == "btree" {
      var t := new BTrees.BTree();
      m := BTreeIndex(t);
    } else {
      var t := new MapCollection();
      m := MapIndex(t);
    }
  }

  // ---------------------------------------------------------------------
  // Schema

  /** `Schema`: collections by name. */
  class Schema<V> {
    var collections: map<string, TreeManager<V>>

    /** `NewSchema`. */
    constructor ()
      ensures collections == map[]
    {
      collections := map[];
    }

    /** `Schema.GetCollection`: the named collection, or "not found". */
    method GetCollection(name: string) returns (r: Result<TreeManager<V>>)
      ensures r.Ok? <==> name in collections
      ensures r.Ok? ==> r.value == collections[name]
      ensures r.Err? ==> r.error == NotFound
    {
      if name !in collections {
        return Err(NotFound);
      }
      return Ok(collections[name]);
    }

    /** `Schema.RemoveCollection`: the name goes if present. */
    method RemoveCollection(name: string)
      modifies this
      ensures collections == old(collections) - {name}
    {
      if name in collections {
        collections := collections - {name};
      }
    }

    /** Go's `for collectionName := range schema.Collections` loop calling
        `RemoveCollection` on each name: the schema ends up empty. */
    method RemoveAllCollections()
      modifies this
      ensures collections == map[]
    {
      var names := collections.Keys;
      while names != {}
        invariant collections.Keys <= names
        decreases names
      {
        var name :| name in names;
        RemoveCollection(name);
        names := names - {name};
      }
    }
  }

  // ---------------------------------------------------------------------
  // Pool

  /** `Pool`: schemas by name. */
  class Pool<V> {
    var schemas: map<string, Schema<V>>

    /** `NewPool`. */
    constructor ()
      ensures schemas == map[]
    {
      schemas := map[];
    }

    /** `Pool.GetSchema`: the named schema, or "not found". */
    method GetSchema(name: string) returns (r: Result<Schema<V>>)
      ensures r.Ok? <==> name in schemas
      ensures r.Ok? ==> r.value == schemas[name]
      ensures r.Err? ==> r.error == NotFound
    {
      if name !in schemas {
        return Err(NotFound);
      }
      return Ok(schemas[name]);
    }

    /** `Pool.AddSchema`: an existing schema is never replaced; a new name
        gets a new empty schema. */
    method AddSchema(name: string)
      modifies this
      ensures name in old(schemas) ==> schemas == old(schemas)
      ensures name !in old(schemas) ==>
        && name in schemas && fresh(schemas[name]) && schemas[name].collections == map[]
        && schemas == old(schemas)[name := schemas[name]]
    {
      if name !in schemas {
        var s := new Schema();
        schemas := schemas[name := s];
      }
    }

    /** `Pool.RemoveSchema`: the schema's collections are removed one by
        one, then the schema itself. */
    method RemoveSchema(name: string)
      modifies this, if name in schemas then {schemas[name]} else {}
      ensures schemas == old(schemas) - {name}
      ensures name in old(schemas) ==> old(schemas)[name].collections == map[]
    {
      if name in schemas {
        var schema := schemas[name];
        schema.RemoveAllCollections();
        schemas := schemas - {name};
      }
    }

    /** `Pool.AddCollection`: a missing schema or a taken collection name is
        reported and nothing changes; otherwise exactly that entry is added
        to the schema. */
    method AddCollection(schemaName: string, collectionName: string, collection: TreeManager<V>)
      returns (err: Option<Error>)
      modifies if schemaName in schemas then {schemas[schemaName]} else {}
      ensures err == Some(NotFound) <==> schemaName !in schemas
      ensures schemaName in schemas ==>
        var s := schemas[schemaName];
        && (err == Some(DuplicateKey) <==> collectionName in old(s.collections))
        && (err.Some? ==> s.collections == old(s.collections))
        && (err.None? ==> s.collections == old(s.collections)[collectionName := collection])
    {
      var found := GetSchema(schemaName);
      if found.Err? {
        return Some(found.error);
      }
      var schema := found.value;
      if collectionName in schema.collections {
        return Some(DuplicateKey);
      }
      schema.collections := schema.collections[collectionName := collection];
      return None;
    }
  }

  // ---------------------------------------------------------------------
  // PoolManager

  /** `PoolManager`: pools by name. */
  class PoolManager<V> {
    var pools: map<string, Pool<V>>

    /** `NewPoolManager`. */
    constructor ()
      ensures pools == map[]
    {
      pools := map[];
    }

    /** `PoolManager.AddPool`: an existing pool is never replaced; a new name
        gets a new empty pool. */
    method AddPool(name: string)
      modifies this
      ensures name in old(pools) ==> pools == old(pools)
      ensures name !in old(pools) ==>
        && name in pools && fresh(pools[name]) && pools[name].schemas == map[]
        && pools == old(pools)[name := pools[name]]
    {
      if name !in pools {
        var p := new Pool();
        pools := pools[name := p];
      }
    }

    /** `PoolManager.RemovePool`: every schema of the pool is emptied of its
        collections and removed, then the pool itself. */
    method RemovePool(name: string)
      modifies this
      modifies if name in pools then {pools[name]} else {}
      modifies if name in pools then pools[name].schemas.Values else {}
      ensures pools == old(pools) - {name}
      ensures name in old(pools) ==> old(pools)[name].schemas == map[]
      ensures name in old(pools) ==> forall s :: s in old(pools[name].schemas.Values) ==> s.collections == map[]
    {
      if name in pools {
        var pool := pools[name];
        ghost var original := pool.schemas;
        var names := pool.schemas.Keys;
        while names != {}
          invariant pools == old(pools) && pool == pools[name]
          invariant pool.schemas.Keys == names
          invariant forall n :: n in pool.schemas ==> n in original && pool.schemas[n] == original[n]
          invariant forall n :: n in original && n !in names ==> original[n].collections == map[]
          decreases names
        {
          var schemaName :| schemaName in names;
          var schema := pool.schemas[schemaName];
          schema.RemoveAllCollections();
          pool.RemoveSchema(schemaName);
          names := names - {schemaName};
        }
        pools := pools - {name};
      }
    }

    /** `PoolManager.GetPool`: the named pool, or "not found". */
    method GetPool(name: string) returns (r: Result<Pool<V>>)
      ensures r.Ok? <==> name in pools
      ensures r.Ok? ==> r.value == pools[name]
      ensures r.Err? ==> r.error == NotFound
    {
      if name !in pools {
        return Err(NotFound);
      }
      return Ok(pools[name]);
    }

    /** `PoolManager.GetRange`: the pools whose names lie in `[lo, hi]`, one
        per name, in the map's unspecified order; `names` are those names
        in the same order. */
    method GetRange(lo: string, hi: string) returns (r: seq<Pool<V>>, ghost names: seq<string>)
      ensures |r| == |names| && NoDuplicates(names)
      ensures forall i :: 0 <= i < |names| ==> names[i] in pools && r[i] == pools[names[i]]
      ensures forall n :: n in names <==> n in pools && InRange(n, lo, hi)
    {
      r, names := [], [];
      var rest := pools.Keys;
      while rest != {}
        invariant rest <= pools.Keys
        invariant |r| == |names| && NoDuplicates(names)
        invariant forall i :: 0 <= i < |names| ==> names[i] in pools && r[i] == pools[names[i]]
        invariant forall n :: n in names <==> n in pools && n !in rest && InRange(n, lo, hi)
        decreases rest
      {
        var n :| n in rest;
        if InRange(n, lo, hi) {
          r, names := r + [pools[n]], names + [n];
        }
        rest := rest - {n};
      }
    }
  }
}
