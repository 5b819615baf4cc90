/**
 * The policy version index: a multimap from plain string keys to sets of version key objects,
 * plus a status map, and the two query rules (exact "major.minor[.patch]" and floating "major").
 */
module VersionIndex {
  import opened Wrappers
  import opened Strings
  import opened Entities

  // ---------------------------------------------------------------------------------------
  // The key object

  /** Immutable version key; note the constructor order: minor, major, patch, name. */
  datatype PolicyDataObject = PolicyDataObject(
    policyMinorVersion: nat,
    policyMajorVersion: nat,
    policyPatchVersion: nat,
    policyFullName: string)
  {
    function GetName(): string { policyFullName }
    function GetMajorVersion(): nat { policyMajorVersion }
    function GetMinorVersion(): nat { policyMinorVersion }
    function GetPatchVersion(): nat { policyPatchVersion }

    /** The key object seen through the logical-version interface it implements. */
    function AsLogicalVersion(): LogicalVersion {
      LogicalVersion(GetName(), GetMajorVersion(), GetMinorVersion(), GetPatchVersion())
    }
  }

  /** `PolicyDataObject.create`: copy the four coordinates of any logical version. */
  function Create(info: LogicalVersion): (p: PolicyDataObject)
    ensures p.GetName() == info.name && p.GetMajorVersion() == info.major
    ensures p.GetMinorVersion() == info.minor && p.GetPatchVersion() == info.patch
  {
    PolicyDataObject(info.minor, info.major, info.patch, info.name)
  }

  /** Copying a key object's own coordinates gives an equal key object. */
  lemma CreateIdempotent(v: LogicalVersion)
    ensures Create(Create(v).AsLogicalVersion()) == Create(v)
    ensures Create(v).AsLogicalVersion() == v
  {
  }

  /** Structural equality: same name and triple is the same key, and only then. */
  lemma CreateInjective(a: LogicalVersion, b: LogicalVersion)
    ensures Create(a) == Create(b) <==> a == b
  {
  }

  // ---------------------------------------------------------------------------------------
  // Keys: name and version text concatenated with no separator

  function MajorKey(v: LogicalVersion): string { v.name + NatToString(v.major) }
  function MinorKey(v: LogicalVersion): string { v.name + v.MinorVersionString() }
  function PatchKey(v: LogicalVersion): string { v.name + v.PatchVersionString() }

  /** The three keys a key object is filed under. */
  function KeysOf(p: PolicyDataObject): set<string> {
    var v := p.AsLogicalVersion();
    {MinorKey(v), MajorKey(v), PatchKey(v)}
  }

  /** Keys of different names can coincide: "a/b/c" major 11 and "a/b/c1" major 1. */
  lemma KeyCollision()
    ensures MajorKey(LogicalVersion("a/b/c", 11, 0, 0)) == MajorKey(LogicalVersion("a/b/c1", 1, 0, 0))
  {
    assert NatToString(11) == NatToString(1) + NatToString(1);
  }

  // ---------------------------------------------------------------------------------------
  // Index state and its two mutations

  datatype IndexState = IndexState(
    statusMap: map<PolicyDataObject, ActivationStatus>,
    versionMap: map<string, set<PolicyDataObject>>)

  const EMPTY: IndexState := IndexState(map[], map[])

  /** The multimap's `get(key)`: the values under a key, empty when the key is absent. */
  function Lookup(m: map<string, set<PolicyDataObject>>, k: string): set<PolicyDataObject> {
    if k in m then m[k] else {}
  }

  /** `get(key).add(p)` */
  function AddValue(m: map<string, set<PolicyDataObject>>, k: string, p: PolicyDataObject): map<string, set<PolicyDataObject>> {
    m[k := Lookup(m, k) + {p}]
  }

  /** `get(key).remove(p)`; the multimap drops a key whose last value is removed. */
  function RemoveValue(m: map<string, set<PolicyDataObject>>, k: string, p: PolicyDataObject): map<string, set<PolicyDataObject>> {
    var s := Lookup(m, k) - {p};
    if s == {} then m - {k} else m[k := s]
  }

  /** The state after `set(v, status)`. */
  function Put(st: IndexState, v: LogicalVersion, status: ActivationStatus): IndexState {
    var p := Create(v);
    var m := AddValue(AddValue(AddValue(st.versionMap, MinorKey(v), p), MajorKey(v), p), PatchKey(v), p);
    IndexState(st.statusMap[p := status], m)
  }

  /** The state after `remove(v)`. */
  function Drop(st: IndexState, v: LogicalVersion): IndexState {
    var p := Create(v);
    var m := RemoveValue(RemoveValue(RemoveValue(st.versionMap, MinorKey(v), p), MajorKey(v), p), PatchKey(v), p);
    IndexState(st.statusMap - {p}, m)
  }

  ghost predicate NoEmptySets(m: map<string, set<PolicyDataObject>>) {
    forall k | k in m :: m[k] != {}
  }

  /**
   * The index invariant: no key holds an empty set, every filed key object has a status and is
   * filed only under its own keys, and every key object with a status is filed under all three.
   */
  ghost predicate IndexValid(st: IndexState) {
    && NoEmptySets(st.versionMap)
    && (forall k, p | k in st.versionMap && p in st.versionMap[k] :: p in st.statusMap && k in KeysOf(p))
    && (forall p, k | p in st.statusMap && k in KeysOf(p) :: p in Lookup(st.versionMap, k))
  }

  lemma EmptyValid()
    ensures IndexValid(EMPTY)
  {
  }

  /** After `set`, a key holds what it held plus the new key object if it is one of its keys. */
  lemma LookupPut(st: IndexState, v: LogicalVersion, status: ActivationStatus, k: string)
    ensures Lookup(Put(st, v, status).versionMap, k)
         == Lookup(st.versionMap, k) + (if k in KeysOf(Create(v)) then {Create(v)} else {})
    ensures k in Put(st, v, status).versionMap <==> k in st.versionMap || k in KeysOf(Create(v))
  {
  }

  /** After `remove`, a key holds what it held minus the key object if it is one of its keys. */
  lemma LookupDrop(st: IndexState, v: LogicalVersion, k: string)
    ensures Lookup(Drop(st, v).versionMap, k)
         == Lookup(st.versionMap, k) - (if k in KeysOf(Create(v)) then {Create(v)} else {})
  {
  }

  lemma PutNoEmptySets(st: IndexState, v: LogicalVersion, status: ActivationStatus)
    requires NoEmptySets(st.versionMap)
    ensures NoEmptySets(Put(st, v, status).versionMap)
  {
  }

  lemma DropNoEmptySets(st: IndexState, v: LogicalVersion)
    requires NoEmptySets(st.versionMap)
    ensures NoEmptySets(Drop(st, v).versionMap)
  {
  }

  /** Two multimaps without empty sets are equal when every key looks up the same values. */
  lemma SameLookupsSameMap(m1: map<string, set<PolicyDataObject>>, m2: map<string, set<PolicyDataObject>>)
    requires NoEmptySets(m1) && NoEmptySets(m2)
    requires forall k :: Lookup(m1, k) == Lookup(m2, k)
    ensures m1 == m2
  {
    forall k ensures k in m1 <==> k in m2 {
      assert Lookup(m1, k) == Lookup(m2, k);
    }
    forall k | k in m1 ensures m1[k] == m2[k] {
      assert Lookup(m1, k) == Lookup(m2, k);
    }
  }

  /** Index states are equal when their statuses agree and every key looks up the same values. */
  lemma SameLookupsSameState(a: IndexState, b: IndexState)
    requires a.statusMap == b.statusMap
    requires NoEmptySets(a.versionMap) && NoEmptySets(b.versionMap)
    requires forall k :: Lookup(a.versionMap, k) == Lookup(b.versionMap, k)
    ensures a == b
  {
    SameLookupsSameMap(a.versionMap, b.versionMap);
  }

  /** `set` keeps the index invariant. */
  lemma PutValid(st: IndexState, v: LogicalVersion, status: ActivationStatus)
    requires IndexValid(st)
    ensures IndexValid(Put(st, v, status))
  {
    var st' := Put(st, v, status);
    forall k, q | k in st'.versionMap && q in st'.versionMap[k]
      ensures q in st'.statusMap && k in KeysOf(q)
    {
      LookupPut(st, v, status, k);
    }
    forall q, k | q in st'.statusMap && k in KeysOf(q)
      ensures q in Lookup(st'.versionMap, k)
    {
      LookupPut(st, v, status, k);
    }
  }

  /** `remove` keeps the index invariant. */
  lemma DropValid(st: IndexState, v: LogicalVersion)
    requires IndexValid(st)
    ensures IndexValid(Drop(st, v))
  {
    var st' := Drop(st, v);
    DropNoEmptySets(st, v);
    forall k, q | k in st'.versionMap && q in st'.versionMap[k]
      ensures q in st'.statusMap && k in KeysOf(q)
    {
      LookupDrop(st, v, k);
      assert q in Lookup(st.versionMap, k);
    }
    forall q, k | q in st'.statusMap && k in KeysOf(q)
      ensures q in Lookup(st'.versionMap, k)
    {
      LookupDrop(st, v, k);
    }
  }

  /** A repeated `set` with the same status changes nothing. */
  lemma PutIdempotent(st: IndexState, v: LogicalVersion, status: ActivationStatus)
    requires NoEmptySets(st.versionMap)
    ensures Put(Put(st, v, status), v, status) == Put(st, v, status)
  {
    var once := Put(st, v, status);
    forall k ensures Lookup(Put(once, v, status).versionMap, k) == Lookup(once.versionMap, k) {
      LookupPut(once, v, status, k);
      LookupPut(st, v, status, k);
    }
    SameLookupsSameMap(Put(once, v, status).versionMap, once.versionMap);
  }

  /** The status is last-write-wins: a second `set` replaces the first one's status. */
  lemma PutLastWins(st: IndexState, v: LogicalVersion, first: ActivationStatus, second: ActivationStatus)
    requires NoEmptySets(st.versionMap)
    ensures Put(Put(st, v, first), v, second) == Put(st, v, second)
  {
    var once := Put(st, v, first);
    forall k ensures Lookup(Put(once, v, second).versionMap, k) == Lookup(Put(st, v, second).versionMap, k) {
      LookupPut(once, v, second, k);
      LookupPut(st, v, first, k);
      LookupPut(st, v, second, k);
    }
    SameLookupsSameMap(Put(once, v, second).versionMap, Put(st, v, second).versionMap);
  }

  lemma UnionSwap(x: set<PolicyDataObject>, a: set<PolicyDataObject>, b: set<PolicyDataObject>)
    ensures x + a + b == x + b + a
  {
  }

  lemma AddRemoveSwap(x: set<PolicyDataObject>, a: set<PolicyDataObject>, b: set<PolicyDataObject>)
    requires a !! b
    ensures x + a - b == x - b + a
  {
  }

  lemma PutCommutesAt(st: IndexState, v: LogicalVersion, a: ActivationStatus, w: LogicalVersion, b: ActivationStatus, k: string)
    ensures Lookup(Put(Put(st, v, a), w, b).versionMap, k) == Lookup(Put(Put(st, w, b), v, a).versionMap, k)
  {
    var x := Lookup(st.versionMap, k);
    var av := if k in KeysOf(Create(v)) then {Create(v)} else {};
    var bw := if k in KeysOf(Create(w)) then {Create(w)} else {};
    LookupPut(st, v, a, k);
    LookupPut(Put(st, v, a), w, b, k);
    LookupPut(st, w, b, k);
    LookupPut(Put(st, w, b), v, a, k);
    UnionSwap(x, av, bw);
  }

  /** Registering two different versions gives the same index in either order. */
  lemma PutCommutes(st: IndexState, v: LogicalVersion, a: ActivationStatus, w: LogicalVersion, b: ActivationStatus)
    requires NoEmptySets(st.versionMap)
    requires Create(v) != Create(w)
    ensures Put(Put(st, v, a), w, b) == Put(Put(st, w, b), v, a)
  {
    var vw := Put(Put(st, v, a), w, b);
    var wv := Put(Put(st, w, b), v, a);
    StatusesCommute(st.statusMap, Create(v), a, Create(w), b);
    PutNoEmptySets(st, v, a);
    PutNoEmptySets(st, w, b);
    PutNoEmptySets(Put(st, v, a), w, b);
    PutNoEmptySets(Put(st, w, b), v, a);
    forall k ensures Lookup(vw.versionMap, k) == Lookup(wv.versionMap, k) {
      PutCommutesAt(st, v, a, w, b, k);
    }
    SameLookupsSameState(vw, wv);
  }

  lemma StatusesCommute(m: map<PolicyDataObject, ActivationStatus>, p: PolicyDataObject, a: ActivationStatus,
                        q: PolicyDataObject, b: ActivationStatus)
    requires p != q
    ensures m[p := a][q := b] == m[q := b][p := a]
    ensures m[p := a] - {q} == (m - {q})[p := a]
  {
  }

  lemma PutDropCommuteAt(st: IndexState, v: LogicalVersion, a: ActivationStatus, w: LogicalVersion, k: string)
    requires Create(v) != Create(w)
    ensures Lookup(Drop(Put(st, v, a), w).versionMap, k) == Lookup(Put(Drop(st, w), v, a).versionMap, k)
  {
    var x := Lookup(st.versionMap, k);
    var av := if k in KeysOf(Create(v)) then {Create(v)} else {};
    var bw := if k in KeysOf(Create(w)) then {Create(w)} else {};
    LookupPut(st, v, a, k);
    LookupDrop(Put(st, v, a), w, k);
    LookupDrop(st, w, k);
    LookupPut(Drop(st, w), v, a, k);
    AddRemoveSwap(x, av, bw);
  }

  /** Registering one version and removing a different one commute. */
  lemma PutDropCommute(st: IndexState, v: LogicalVersion, a: ActivationStatus, w: LogicalVersion)
    requires NoEmptySets(st.versionMap)
    requires Create(v) != Create(w)
    ensures Drop(Put(st, v, a), w) == Put(Drop(st, w), v, a)
  {
    var pd := Drop(Put(st, v, a), w);
    var dp := Put(Drop(st, w), v, a);
    PutNoEmptySets(st, v, a);
    DropNoEmptySets(Put(st, v, a), w);
    DropNoEmptySets(st, w);
    PutNoEmptySets(Drop(st, w), v, a);
    StatusesCommute(st.statusMap, Create(v), a, Create(w), a);
    forall k ensures Lookup(pd.versionMap, k) == Lookup(dp.versionMap, k) {
      PutDropCommuteAt(st, v, a, w, k);
    }
    SameLookupsSameState(pd, dp);
  }

  /** Removing a version that is not registered leaves the index exactly as it was. */
  lemma DropUnregistered(st: IndexState, v: LogicalVersion)
    requires IndexValid(st)
    requires Create(v) !in st.statusMap
    ensures Drop(st, v) == st
  {
    DropNoEmptySets(st, v);
    forall k ensures Lookup(Drop(st, v).versionMap, k) == Lookup(st.versionMap, k) {
      LookupDrop(st, v, k);
    }
    SameLookupsSameMap(Drop(st, v).versionMap, st.versionMap);
  }

  /** Registering a new version and removing it again restores the previous index. */
  lemma DropPutRestores(st: IndexState, v: LogicalVersion, status: ActivationStatus)
    requires IndexValid(st)
    requires Create(v) !in st.statusMap
    ensures Drop(Put(st, v, status), v) == st
  {
    var st' := Drop(Put(st, v, status), v);
    PutValid(st, v, status);
    DropNoEmptySets(Put(st, v, status), v);
    forall k ensures Lookup(st'.versionMap, k) == Lookup(st.versionMap, k) {
      LookupPut(st, v, status, k);
      LookupDrop(Put(st, v, status), v, k);
    }
    SameLookupsSameMap(st'.versionMap, st.versionMap);
  }

  // ---------------------------------------------------------------------------------------
  // Queries

  function StatusOf(st: IndexState, p: PolicyDataObject): Option<ActivationStatus> {
    if p in st.statusMap then Some(st.statusMap[p]) else None
  }

  /** Eligible for an exact query: ACTIVE or AVAILABLE. */
  predicate ExactEligible(st: IndexState, p: PolicyDataObject) {
    StatusOf(st, p) == Some(ACTIVE) || StatusOf(st, p) == Some(AVAILABLE)
  }

  /** Eligible for a floating major query: ACTIVE only. */
  predicate FloatingEligible(st: IndexState, p: PolicyDataObject) {
    StatusOf(st, p) == Some(ACTIVE)
  }

  ghost predicate HasMaxPatch(p: PolicyDataObject, s: set<PolicyDataObject>) {
    p in s && forall q | q in s :: q.policyPatchVersion <= p.policyPatchVersion
  }

  ghost predicate HasMaxMinor(p: PolicyDataObject, s: set<PolicyDataObject>) {
    p in s && forall q | q in s :: q.policyMinorVersion <= p.policyMinorVersion
  }

  lemma {:induction false} MaxPatchExists(s: set<PolicyDataObject>)
    requires s != {}
    ensures exists p :: HasMaxPatch(p, s)
  {
    var x :| x in s;
    if s != {x} {
      MaxPatchExists(s - {x});
      var y :| HasMaxPatch(y, s - {x});
      if x.policyPatchVersion <= y.policyPatchVersion {
        assert HasMaxPatch(y, s);
      } else {
        assert HasMaxPatch(x, s);
      }
    } else {
      assert HasMaxPatch(x, s);
    }
  }

  lemma {:induction false} MaxMinorExists(s: set<PolicyDataObject>)
    requires s != {}
    ensures exists p :: HasMaxMinor(p, s)
  {
    var x :| x in s;
    if s != {x} {
      MaxMinorExists(s - {x});
      var y :| HasMaxMinor(y, s - {x});
      if x.policyMinorVersion <= y.policyMinorVersion {
        assert HasMaxMinor(y, s);
      } else {
        assert HasMaxMinor(x, s);
      }
    } else {
      assert HasMaxMinor(x, s);
    }
  }

  /**
   * `stream().max(comparingInt(patch))` over a hash set: some element with the highest patch.
   * Elements tie only when two names' keys collide; the model then fixes one of them.
   */
  ghost function MaxPatch(s: set<PolicyDataObject>): (p: PolicyDataObject)
    requires s != {}
    ensures HasMaxPatch(p, s)
  {
    MaxPatchExists(s);
    var p :| HasMaxPatch(p, s); p
  }

  ghost function MaxMinor(s: set<PolicyDataObject>): (p: PolicyDataObject)
    requires s != {}
    ensures HasMaxMinor(p, s)
  {
    MaxMinorExists(s);
    var p :| HasMaxMinor(p, s); p
  }

  /** The entries of one minor version. */
  function Group(s: set<PolicyDataObject>, minor: nat): set<PolicyDataObject> {
    set p | p in s && p.policyMinorVersion == minor
  }

  /** The highest-patch entry of every minor group. */
  ghost function Tops(s: set<PolicyDataObject>): set<PolicyDataObject> {
    set p | p in s :: TopOf(s, p)
  }

  /** The highest-patch entry of the minor group an entry belongs to. */
  ghost function TopOf(s: set<PolicyDataObject>, p: PolicyDataObject): PolicyDataObject
    requires p in s
  {
    assert p in Group(s, p.policyMinorVersion);
    MaxPatch(Group(s, p.policyMinorVersion))
  }

  /** The minor-group tops that are ACTIVE. */
  ghost function ActiveTops(st: IndexState, s: set<PolicyDataObject>): set<PolicyDataObject> {
    set t | t in Tops(s) && FloatingEligible(st, t)
  }

  /**
   * Exact query ("major.minor" or "major.minor.patch"): the highest-patch entry under the key,
   * and only if that entry is ACTIVE or AVAILABLE; the filter runs after the max.
   */
  ghost function ResolveExact(st: IndexState, key: string): (r: Option<PolicyDataObject>)
    ensures Lookup(st.versionMap, key) == {} ==> r.None?
    ensures r.Some? ==> HasMaxPatch(r.value, Lookup(st.versionMap, key)) && ExactEligible(st, r.value)
    ensures (Lookup(st.versionMap, key) != {}
             && forall t | HasMaxPatch(t, Lookup(st.versionMap, key)) :: ExactEligible(st, t)) ==> r.Some?
    ensures (forall t | HasMaxPatch(t, Lookup(st.versionMap, key)) :: !ExactEligible(st, t)) ==> r.None?
  {
    var s := Lookup(st.versionMap, key);
    if s == {} then None
    else
      var top := MaxPatch(s);
      if ExactEligible(st, top) then Some(top) else None
  }

  /**
   * Floating query (bare major): group by minor, keep each group's highest patch, keep the
   * ACTIVE ones, and answer the one with the highest minor.
   */
  ghost function ResolveFloating(st: IndexState, key: string): (r: Option<PolicyDataObject>)
    ensures r.None? <==> ActiveTops(st, Lookup(st.versionMap, key)) == {}
    ensures r.Some? ==> r.value in Lookup(st.versionMap, key) && FloatingEligible(st, r.value)
    ensures r.Some? ==> HasMaxPatch(r.value, Group(Lookup(st.versionMap, key), r.value.policyMinorVersion))
    ensures r.Some? ==> HasMaxMinor(r.value, ActiveTops(st, Lookup(st.versionMap, key)))
  {
    var active := ActiveTops(st, Lookup(st.versionMap, key));
    if active == {} then None
    else
      var r := MaxMinor(active);
      assert r in Tops(Lookup(st.versionMap, key));
      Some(r)
  }

  /** A version text that is not a number. */
  datatype VersionFormatError = NumberFormat(version: string)

  /** `getPolicyVersion(name, version)`: a dotted version is an exact query, else a floating one. */
  ghost function Resolve(st: IndexState, name: string, version: string): (r: Result<Option<PolicyDataObject>, VersionFormatError>)
    ensures '.' in version ==> r == Success(ResolveExact(st, name + version))
    ensures '.' !in version && ParseInt(version).None? ==> r.Failure?
    ensures '.' !in version && ParseInt(version).Some? ==>
      r == Success(ResolveFloating(st, name + IntToString(ParseInt(version).value)))
  {
    if '.' in version then Success(ResolveExact(st, name + version))
    else match ParseInt(version)
      case None => Failure(NumberFormat(version))
      case Some(major) => Success(ResolveFloating(st, name + IntToString(major)))
  }

  // ---------------------------------------------------------------------------------------
  // Properties of the queries

  /** An empty index answers every well-formed query with "absent". */
  lemma ResolveOnEmpty(name: string, version: string)
    ensures Resolve(EMPTY, name, version).Success? ==> Resolve(EMPTY, name, version).value.None?
  {
    if '.' !in version && ParseInt(version).Some? {
      assert ActiveTops(EMPTY, {}) == {};
    }
  }

  /** A bare version text that is not an integer is a format error, not "absent". */
  lemma NonNumericMajorFails(st: IndexState, name: string)
    ensures Resolve(st, name, "1x").Failure?
    ensures Resolve(st, name, "").Failure?
  {
    assert ParseInt("1x").None? by {
      assert !AllDigits("1x") by { assert !IsDigit("1x"[1]); }
    }
  }

  /** The version texts a logical version is filed under select the keys it is filed under. */
  lemma QueriesSelectOwnKeys(st: IndexState, v: LogicalVersion)
    requires v.major <= INT_MAX
    ensures Resolve(st, v.name, v.PatchVersionString()) == Success(ResolveExact(st, PatchKey(v)))
    ensures Resolve(st, v.name, v.MinorVersionString()) == Success(ResolveExact(st, MinorKey(v)))
    ensures Resolve(st, v.name, NatToString(v.major)) == Success(ResolveFloating(st, MajorKey(v)))
  {
    var minor := v.MinorVersionString();
    assert minor[|NatToString(v.major)|] == '.';
    assert v.PatchVersionString()[|NatToString(v.major)|] == '.';
    VersionDigitsHaveNoDot(NatToString(v.major));
    ParseIntOfNatToString(v.major);
  }

  lemma VersionDigitsHaveNoDot(s: string)
    requires AllDigits(s)
    ensures '.' !in s
  {
  }

  /** Exact queries: a DISABLED highest patch hides every lower patch under that key. */
  lemma DisabledTopHidesExact(st: IndexState, key: string, top: PolicyDataObject)
    requires top in Lookup(st.versionMap, key)
    requires forall q | q in Lookup(st.versionMap, key) && q != top :: q.policyPatchVersion < top.policyPatchVersion
    requires StatusOf(st, top) == Some(DISABLED)
    ensures ResolveExact(st, key) == None
  {
  }

  /** Exact queries accept an AVAILABLE highest patch. */
  lemma AvailableTopAnswersExact(st: IndexState, key: string, top: PolicyDataObject)
    requires top in Lookup(st.versionMap, key)
    requires forall q | q in Lookup(st.versionMap, key) && q != top :: q.policyPatchVersion < top.policyPatchVersion
    requires StatusOf(st, top) == Some(AVAILABLE)
    ensures ResolveExact(st, key) == Some(top)
  {
  }

  /** Floating queries ignore everything that is not ACTIVE, AVAILABLE included. */
  lemma FloatingNeedsActive(st: IndexState, key: string)
    requires forall q | q in Lookup(st.versionMap, key) :: StatusOf(st, q) != Some(ACTIVE)
    ensures ResolveFloating(st, key) == None
  {
  }

  /** Floating queries: a DISABLED highest patch of a minor group hides that whole group. */
  lemma DisabledTopHidesGroup(st: IndexState, key: string, top: PolicyDataObject)
    requires top in Lookup(st.versionMap, key)
    requires forall q | q in Lookup(st.versionMap, key) && q != top && q.policyMinorVersion == top.policyMinorVersion ::
      q.policyPatchVersion < top.policyPatchVersion
    requires StatusOf(st, top) == Some(DISABLED)
    ensures ResolveFloating(st, key).Some? ==> ResolveFloating(st, key).value.policyMinorVersion != top.policyMinorVersion
  {
  }

  /** After `set`, the exact-patch query answers the new entry when nothing else shares its key. */
  lemma PutThenExactPatch(st: IndexState, v: LogicalVersion, status: ActivationStatus)
    requires Lookup(st.versionMap, PatchKey(v)) <= {Create(v)}
    ensures ResolveExact(Put(st, v, status), PatchKey(v))
         == (if status == DISABLED then None else Some(Create(v)))
  {
    var st' := Put(st, v, status);
    LookupPut(st, v, status, PatchKey(v));
    assert Lookup(st'.versionMap, PatchKey(v)) == {Create(v)};
    assert StatusOf(st', Create(v)) == Some(status);
  }

  /** An ACTIVE entry of a higher minor than everything under its major key becomes the floating answer. */
  lemma PutHigherMinorFloats(st: IndexState, v: LogicalVersion)
    requires forall q | q in Lookup(st.versionMap, MajorKey(v)) :: q.policyMinorVersion < v.minor
    ensures ResolveFloating(Put(st, v, ACTIVE), MajorKey(v)) == Some(Create(v))
  {
    var st' := Put(st, v, ACTIVE);
    var p := Create(v);
    var s := Lookup(st'.versionMap, MajorKey(v));
    LookupPut(st, v, ACTIVE, MajorKey(v));
    assert s == Lookup(st.versionMap, MajorKey(v)) + {p};
    assert Group(s, v.minor) == {p};
    assert TopOf(s, p) == p;
    assert p in ActiveTops(st', s);
    var r := ResolveFloating(st', MajorKey(v));
    assert r.value in s;
  }

  /** A `set` leaves every query on a key that is not one of the entry's keys unchanged. */
  lemma PutIsolated(st: IndexState, v: LogicalVersion, status: ActivationStatus, key: string)
    requires IndexValid(st)
    requires key !in KeysOf(Create(v))
    ensures ResolveExact(Put(st, v, status), key) == ResolveExact(st, key)
    ensures ResolveFloating(Put(st, v, status), key) == ResolveFloating(st, key)
  {
    var st' := Put(st, v, status);
    var s := Lookup(st.versionMap, key);
    LookupPut(st, v, status, key);
    assert Lookup(st'.versionMap, key) == s;
    assert forall q | q in s :: StatusOf(st', q) == StatusOf(st, q);
    assert ActiveTops(st', s) == ActiveTops(st, s);
  }

  /** A `remove` leaves every query on a key that is not one of the entry's keys unchanged. */
  lemma DropIsolated(st: IndexState, v: LogicalVersion, key: string)
    requires IndexValid(st)
    requires key !in KeysOf(Create(v))
    ensures ResolveExact(Drop(st, v), key) == ResolveExact(st, key)
    ensures ResolveFloating(Drop(st, v), key) == ResolveFloating(st, key)
  {
    var st' := Drop(st, v);
    var s := Lookup(st.versionMap, key);
    LookupDrop(st, v, key);
    assert Lookup(st'.versionMap, key) == s;
    assert forall q | q in s :: StatusOf(st', q) == StatusOf(st, q);
    assert ActiveTops(st', s) == ActiveTops(st, s);
  }

  /**
   * Whatever a query answers is a registered entry; for an exact query its name is a prefix of
   * the queried key (it need not equal the queried name, since keys of different names collide).
   */
  lemma ResolvedIsRegistered(st: IndexState, name: string, version: string)
    requires IndexValid(st)
    ensures var r := Resolve(st, name, version);
      r.Success? && r.value.Some? ==> r.value.value in st.statusMap
    ensures var r := Resolve(st, name, version);
      '.' in version && r.Success? && r.value.Some? ==> r.value.value.policyFullName <= name + version
  {
    var r := Resolve(st, name, version);
    if r.Success? && r.value.Some? {
      var p := r.value.value;
      var key := if '.' in version then name + version else name + IntToString(ParseInt(version).value);
      assert p in st.versionMap[key];
      assert key in KeysOf(p);
      var lv := p.AsLogicalVersion();
      assert key == MinorKey(lv) || key == MajorKey(lv) || key == PatchKey(lv);
      assert p.policyFullName <= key;
    }
  }

  // ---------------------------------------------------------------------------------------
  // The service object

  /** `PolicyVersionService`: the two maps, updated in place by `set` and `remove`. */
  class PolicyVersionService {
    var statusMap: map<PolicyDataObject, ActivationStatus>
    var versionMap: map<string, set<PolicyDataObject>>

    function State(): IndexState
      reads this
    {
      IndexState(statusMap, versionMap)
    }

    ghost predicate Valid()
      reads this
    {
      IndexValid(State())
    }

    constructor()
      ensures State() == EMPTY && Valid()
    {
      statusMap := map[];
      versionMap := map[];
    }

    /** `set(policy, status)`: record the status and file the key object under its three keys. */
    method Set(policy: LogicalVersion, status: ActivationStatus)
      requires Valid()
      modifies this
      ensures State() == Put(old(State()), policy, status)
      ensures Valid()
    {
      PutValid(State(), policy, status);
      var p := Create(policy);
      statusMap := statusMap[p := status];
      versionMap := AddValue(versionMap, MinorKey(policy), p);
      versionMap := AddValue(versionMap, MajorKey(policy), p);
      versionMap := AddValue(versionMap, PatchKey(policy), p);
    }

    /** `remove(policy)`: forget the status and take the key object out of its three keys. */
    method Remove(policy: LogicalVersion)
      requires Valid()
      modifies this
      ensures State() == Drop(old(State()), policy)
      ensures Valid()
    {
      DropValid(State(), policy);
      var p := Create(policy);
      statusMap := statusMap - {p};
      versionMap := RemoveValue(versionMap, MinorKey(policy), p);
      versionMap := RemoveValue(versionMap, MajorKey(policy), p);
      versionMap := RemoveValue(versionMap, PatchKey(policy), p);
    }

    /** `getPolicyVersion(name, version)` on the current maps. */
    ghost function GetPolicyVersion(name: string, version: string): (r: Result<Option<PolicyDataObject>, VersionFormatError>)
      reads this
      ensures r == Resolve(State(), name, version)
      ensures Valid() && r.Success? && r.value.Some? ==> r.value.value in statusMap
    {
      if Valid() then ResolvedIsRegistered(State(), name, version); Resolve(State(), name, version)
      else Resolve(State(), name, version)
    }
  }
}
