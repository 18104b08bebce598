/** The process-wide catalogue of version records: an insertion-ordered
    sequence in which no two entries are `==`-equal, with registration,
    enumeration, the list of product names and lookup by product name; and the
    self-registration a product performs at load time. */
module Registry {
  import opened Version

  // ---------------------------------------------------------------------
  // The catalogue as a value

  /** Some entry of `infos` is `==`-equal to `v`. */
  predicate Contains(infos: seq<VersionInfo>, v: VersionInfo) {
    exists i :: 0 <= i < |infos| && Equal(infos[i], v)
  }

  /** No two entries are `==`-equal. */
  predicate Unique(infos: seq<VersionInfo>) {
    forall i, j :: 0 <= i < j < |infos| ==> !Equal(infos[i], infos[j])
  }

  /** The catalogue after registering `v`: unchanged if an equal record is
      already there, otherwise `v` appended at the end. Either way every
      earlier entry keeps its place, some entry is equal to `v`, and no two
      entries become equal. */
  function Registered(infos: seq<VersionInfo>, v: VersionInfo): (after: seq<VersionInfo>)
    ensures |infos| <= |after| <= |infos| + 1
    ensures after[..|infos|] == infos
    ensures |after| == |infos| + 1 <==> !Contains(infos, v)
    ensures |after| == |infos| + 1 ==> after[|infos|] == v
    ensures Contains(after, v)
    ensures Unique(infos) ==> Unique(after)
  {
    if Contains(infos, v) then infos
    else
      assert Equal((infos + [v])[|infos|], v);
      infos + [v]
  }

  /** Registering the same record (or one equal to it) a second time changes
      nothing. */
  lemma RegisterIdempotent(infos: seq<VersionInfo>, v: VersionInfo, w: VersionInfo)
    requires Equal(v, w)
    ensures Contains(Registered(infos, v), w)
    ensures Registered(Registered(infos, v), w) == Registered(infos, v)
  {
    var after := Registered(infos, v);
    var i :| 0 <= i < |after| && Equal(after[i], v);
    EqualIsEquivalence(after[i], v, w);
  }

  /** Registering a record and then a copy that differs only in its commit id
      leaves exactly one new entry. */
  lemma RegisterIgnoresCommitId(infos: seq<VersionInfo>, v: VersionInfo, commitId: string)
    requires !Contains(infos, v)
    ensures Registered(Registered(infos, v), v.(commitId := commitId)) == infos + [v]
  {
    EqualIgnoresCommitId(v, commitId);
    RegisterIdempotent(infos, v, v.(commitId := commitId));
  }

  /** The product names of the entries, in order. */
  function ProductNames(infos: seq<VersionInfo>): (names: seq<string>)
    ensures |names| == |infos|
    ensures forall i :: 0 <= i < |infos| ==> names[i] == infos[i].productName
  {
    if infos == [] then [] else [infos[0].productName] + ProductNames(infos[1..])
  }

  /** Registration adds the product name of `v` at the end exactly when it
      adds `v`. */
  lemma ProductNamesRegistered(infos: seq<VersionInfo>, v: VersionInfo)
    ensures ProductNames(Registered(infos, v)) ==
            if Contains(infos, v) then ProductNames(infos)
            else ProductNames(infos) + [v.productName]
  {
    var after := Registered(infos, v);
    if !Contains(infos, v) {
      assert forall i :: 0 <= i < |after| ==>
        ProductNames(after)[i] == (ProductNames(infos) + [v.productName])[i];
    }
  }

  /** The first entry whose product name is `productName`, or the empty default
      record when there is none. */
  function Lookup(infos: seq<VersionInfo>, productName: string): (r: VersionInfo)
    ensures (forall i :: 0 <= i < |infos| ==> infos[i].productName != productName) ==>
            r == Default()
    ensures forall i :: (0 <= i < |infos| && infos[i].productName == productName &&
                         forall j :: 0 <= j < i ==> infos[j].productName != productName) ==>
                        r == infos[i]
  {
    if infos == [] then Default()
    else if infos[0].productName == productName then infos[0]
    else Lookup(infos[1..], productName)
  }

  /** A lookup comes back empty exactly when the name asked for is itself
      empty or no entry carries it. */
  lemma {:induction false} LookupEmpty(infos: seq<VersionInfo>, productName: string)
    ensures IsEmpty(Lookup(infos, productName)) <==>
            productName == [] ||
            forall i :: 0 <= i < |infos| ==> infos[i].productName != productName
    decreases |infos|
  {
    if infos != [] && infos[0].productName != productName {
      LookupEmpty(infos[1..], productName);
      assert forall i :: 1 <= i < |infos| ==> infos[i] == infos[1..][i - 1];
    }
  }

  /** Registration never changes what a lookup for an already registered
      product name finds, since new entries go to the end. */
  lemma {:induction false} LookupStable(infos: seq<VersionInfo>, productName: string, v: VersionInfo)
    requires exists i :: 0 <= i < |infos| && infos[i].productName == productName
    ensures Lookup(Registered(infos, v), productName) == Lookup(infos, productName)
  {
    if !Contains(infos, v) {
      LookupAppend(infos, productName, v);
    }
  }

  lemma {:induction false} LookupAppend(infos: seq<VersionInfo>, productName: string, v: VersionInfo)
    requires exists i :: 0 <= i < |infos| && infos[i].productName == productName
    ensures Lookup(infos + [v], productName) == Lookup(infos, productName)
    decreases |infos|
  {
    if infos[0].productName != productName {
      assert (infos + [v])[1..] == infos[1..] + [v];
      var k :| 0 <= k < |infos| && infos[k].productName == productName;
      assert infos[1..][k - 1].productName == productName;
      LookupAppend(infos[1..], productName, v);
    }
  }

  // ---------------------------------------------------------------------
  // std::find over the catalogue

  /** The index of the first entry `==`-equal to `v`, or `|infos|` when there
      is none. */
  method Find(infos: seq<VersionInfo>, v: VersionInfo) returns (i: nat)
    ensures i <= |infos|
    ensures i < |infos| ==> Equal(infos[i], v)
    ensures forall j :: 0 <= j < i ==> !Equal(infos[j], v)
    ensures i == |infos| <==> !Contains(infos, v)
  {
    i := 0;
    while i < |infos| && !Equal(infos[i], v)
      invariant i <= |infos|
      invariant forall j :: 0 <= j < i ==> !Equal(infos[j], v)
    {
      i := i + 1;
    }
  }

  // ---------------------------------------------------------------------
  // The catalogue object

  /** The catalogue that the source keeps as a process-wide singleton vector;
      here an explicit object that starts empty. */
  class VersionRegistry {
    var infos: seq<VersionInfo>

    /** No two registered records are `==`-equal. */
    ghost predicate Valid()
      reads this
    {
      Unique(infos)
    }

    /** The lazily created, initially empty catalogue. */
    constructor ()
      ensures Valid()
      ensures infos == []
    {
      infos := [];
    }

    /** Adds `v` at the end unless an `==`-equal record is already registered;
        reports whether it was added. */
    method RegisterVersionInfo(v: VersionInfo) returns (added: bool)
      requires Valid()
      modifies this
      ensures Valid()
      ensures added <==> !Contains(old(infos), v)
      ensures infos == Registered(old(infos), v)
    {
      var i := Find(infos, v);
      if i < |infos| {
        return false;
      }
      infos := infos + [v];
      return true;
    }

    /** Every registered record, in registration order; a read-only view. */
    function VersionInfos(): (s: seq<VersionInfo>)
      reads this
      requires Valid()
      ensures s == infos
      ensures Unique(s)
    {
      infos
    }

    /** The product names of the registered records, in registration order. */
    method Products() returns (prods: seq<string>)
      ensures prods == ProductNames(infos)
    {
      prods := [];
      var v := 0;
      while v < |infos|
        invariant 0 <= v <= |infos|
        invariant prods == ProductNames(infos[..v])
      {
        assert infos[..v + 1] == infos[..v] + [infos[v]];
        prods := prods + [infos[v].productName];
        v := v + 1;
      }
      assert infos[..v] == infos;
    }

    /** The first registered record named `productName`, or the empty default
        record if there is none. */
    method GetRegisteredVersionInfo(productName: string) returns (r: VersionInfo)
      ensures r == Lookup(infos, productName)
    {
      var v := 0;
      while v < |infos|
        invariant 0 <= v <= |infos|
        invariant Lookup(infos, productName) == Lookup(infos[v..], productName)
      {
        if infos[v].productName == productName {
          return infos[v];
        }
        assert infos[v..][1..] == infos[v + 1..];
        v := v + 1;
      }
      return Default();
    }
  }

  // ---------------------------------------------------------------------
  // Self-registration at load time

  /** What the registration macro defines for one product: the accessor's
      function-local static record, and the static flag initialised by
      registering that record (the flag is stored and never consulted). */
  class StaticVersionInfo {
    const info: VersionInfo
    var registered: bool

    /** The static record holds data: the product name is never empty. */
    ghost predicate Valid() {
      !IsEmpty(info)
    }

    /** Static initialisation of one product: build the record from the
        macro's arguments and register it. An empty first macro argument would
        stringify to "" and make construction throw during static
        initialisation; this constructor requires a non-empty product name and
        so excludes that case. */
    constructor (registry: VersionRegistry,
                 productName: string, productType: string, productFile: string,
                 major: Byte, minor: Byte, patch: Byte, build: Byte,
                 name: string, releaseType: string, commitId: string)
      requires productName != []
      requires registry.Valid()
      modifies registry
      ensures info == VersionInfo(productName, productType, productFile, major, minor,
                                  patch, build, name, releaseType, commitId)
      ensures Valid()
      ensures registry.Valid()
      ensures registered <==> !Contains(old(registry.infos), info)
      ensures registry.infos == Registered(old(registry.infos), info)
      ensures Contains(registry.infos, info)
    {
      info := Make(productName, productType, productFile, major, minor,
                   patch, build, name, releaseType, commitId).info;
      new;
      registered := registry.RegisterVersionInfo(info);
    }

    /** The accessor: always the same static record, which is not empty. */
    function Get(): (v: VersionInfo)
      requires Valid()
      ensures v == info && !IsEmpty(v)
    {
      info
    }

    /** The same product registering again (its registration code linked into
        a second binary sharing the catalogue) adds nothing and reports false. */
    method RegisterAgain(registry: VersionRegistry) returns (added: bool)
      requires Valid()
      requires registry.Valid()
      requires Contains(registry.infos, info)
      modifies registry
      ensures !added
      ensures registry.infos == old(registry.infos)
    {
      added := registry.RegisterVersionInfo(Get());
    }
  }
}
