/** Value equality of a package reference (a package name and version):
    both `Equals` overloads, the `==`/`!=` operators, the hash code and the
    text form. A reference is an object: `address` is its identity, the one
    `ReferenceEquals` compares, and `runtimeType` is what `GetType()` returns
    (the class is not sealed). The version type `V` stays abstract: `veq` is
    its `Equals`, `versionHash` its `GetHashCode`, `versionText` its `ToString`. */
module PackageReferences {
  import opened Seqs
  import opened Strings

  datatype PackageReference<V> = PackageReference(address: nat, runtimeType: string, name: Option<string>, version: Option<V>)

  /** A value of static type `object`: null, a package reference, or an
      object of another type, which is never a package reference. */
  datatype Object<V> = Null | Package(p: PackageReference<V>) | Other(address: nat)

  /** Two references with the same identity are the same object. */
  ghost predicate Consistent<V>(a: PackageReference<V>, b: PackageReference<V>) {
    a.address == b.address ==> a == b
  }

  /** The static `object.Equals(a, b)` on two versions. */
  function VersionEquals<V>(a: Option<V>, b: Option<V>, veq: (V, V) -> bool): bool {
    match (a, b)
    case (None, None) => true
    case (Some(x), Some(y)) => veq(x, y)
    case _ => false
  }

  /** `Equals(PackageReference other)`. */
  function EqualsReference<V>(self: PackageReference<V>, other: Option<PackageReference<V>>, veq: (V, V) -> bool): bool {
    match other
    case None => false
    case Some(o) => o.address == self.address || (self.name == o.name && VersionEquals(self.version, o.version, veq))
  }

  /** `Equals(object obj)`. */
  function EqualsObject<V>(self: PackageReference<V>, obj: Object<V>, veq: (V, V) -> bool): bool {
    match obj
    case Null => false
    case Other(_) => false
    case Package(o) =>
      if o.address == self.address then true
      else if o.runtimeType != self.runtimeType then false
      else EqualsReference(self, Some(o), veq)
  }

  function AsObject<V>(r: Option<PackageReference<V>>): Object<V> {
    match r
    case None => Null
    case Some(p) => Package(p)
  }

  /** The static `object.Equals(left, right)` behind the operators: the same
      object (or both null) is equal, one null is not, otherwise the virtual
      `left.Equals((object)right)`. */
  function StaticEquals<V>(left: Option<PackageReference<V>>, right: Option<PackageReference<V>>, veq: (V, V) -> bool): bool {
    match (left, right)
    case (None, None) => true
    case (Some(l), Some(r)) => l.address == r.address || EqualsObject(l, Package(r), veq)
    case _ => false
  }

  /** `operator ==`. */
  function OpEquals<V>(left: Option<PackageReference<V>>, right: Option<PackageReference<V>>, veq: (V, V) -> bool): bool {
    StaticEquals(left, right, veq)
  }

  /** `operator !=`. */
  function OpNotEquals<V>(left: Option<PackageReference<V>>, right: Option<PackageReference<V>>, veq: (V, V) -> bool): bool {
    !StaticEquals(left, right, veq)
  }

  /** The hash of a nullable string or version: null hashes to 0. */
  function OptionHash<T>(x: Option<T>, hash: T -> bv32): bv32 {
    if x.Some? then hash(x.value) else 0
  }

  /** `(nameHash * 397) ^ versionHash` in `unchecked` 32-bit arithmetic,
      so the product wraps. */
  function CombineHashes(nameHash: bv32, versionHash: bv32): bv32 {
    (nameHash * 397) ^ versionHash
  }

  /** `GetHashCode()`. */
  function HashCode<V>(self: PackageReference<V>, stringHash: string -> bv32, versionHash: V -> bv32): bv32 {
    CombineHashes(OptionHash(self.name, stringHash), OptionHash(self.version, versionHash))
  }

  /** `ToString()`: `Name + " " + Version`, where a null operand contributes nothing. */
  function ToString<V>(self: PackageReference<V>, versionText: V -> string): string {
    (if self.name.Some? then self.name.value else "") + " "
    + (if self.version.Some? then versionText(self.version.value) else "")
  }

  // ---------------------------------------------------------------------
  // Properties

  /** Null is never equal, in either overload; the same object always is,
      whatever the version comparison does; an object of another type, or
      a reference of a different runtime type, never is. */
  lemma EqualsBasics<V>(p: PackageReference<V>, o: PackageReference<V>, a: nat, veq: (V, V) -> bool)
    ensures !EqualsReference(p, None, veq) && !EqualsObject(p, Null, veq)
    ensures EqualsReference(p, Some(p), veq) && EqualsObject(p, Package(p), veq)
    ensures !EqualsObject(p, Other(a), veq)
    ensures o.address != p.address && o.runtimeType != p.runtimeType ==> !EqualsObject(p, Package(o), veq)
  {
  }

  /** With a reflexive version equality, two references of the same runtime
      type are equal exactly when their names are ordinally equal and their
      versions are equal. */
  lemma EqualsIffFields<V>(p: PackageReference<V>, o: PackageReference<V>, veq: (V, V) -> bool)
    requires forall x :: veq(x, x)
    requires Consistent(p, o) && p.runtimeType == o.runtimeType
    ensures EqualsObject(p, Package(o), veq) <==> p.name == o.name && VersionEquals(p.version, o.version, veq)
    ensures EqualsReference(p, Some(o), veq) <==> p.name == o.name && VersionEquals(p.version, o.version, veq)
  {
    if o.address == p.address {
      assert o == p;
      match p.version {
        case None =>
        case Some(x) => assert veq(x, x);
      }
    }
  }

  /** With a symmetric version equality, both overloads and the operators are symmetric. */
  lemma EqualsSymmetric<V>(p: PackageReference<V>, o: PackageReference<V>, veq: (V, V) -> bool)
    requires forall x, y :: veq(x, y) == veq(y, x)
    ensures EqualsReference(p, Some(o), veq) == EqualsReference(o, Some(p), veq)
    ensures EqualsObject(p, Package(o), veq) == EqualsObject(o, Package(p), veq)
    ensures OpEquals(Some(p), Some(o), veq) == OpEquals(Some(o), Some(p), veq)
  {
    match (p.version, o.version) {
      case (Some(x), Some(y)) => assert veq(x, y) == veq(y, x);
      case _ =>
    }
  }

  /** With a reflexive and transitive version equality, `Equals(object)` is
      transitive over consistent references. */
  lemma EqualsTransitive<V>(p: PackageReference<V>, q: PackageReference<V>, r: PackageReference<V>, veq: (V, V) -> bool)
    requires forall x :: veq(x, x)
    requires forall x, y, z :: veq(x, y) && veq(y, z) ==> veq(x, z)
    requires Consistent(p, q) && Consistent(q, r) && Consistent(p, r)
    requires EqualsObject(p, Package(q), veq) && EqualsObject(q, Package(r), veq)
    ensures EqualsObject(p, Package(r), veq)
  {
    if p.address != r.address && p.address != q.address && q.address != r.address {
      match (p.version, q.version, r.version) {
        case (Some(x), Some(y), Some(z)) => assert veq(x, y) && veq(y, z);
        case _ =>
      }
    }
  }

  /** `==` agrees with `Equals`: null equals only null, a non-null left
      operand decides by its `Equals(object)`, and `!=` is the negation. */
  lemma OperatorsAgree<V>(l: Option<PackageReference<V>>, r: Option<PackageReference<V>>, veq: (V, V) -> bool)
    ensures l.None? ==> (OpEquals(l, r, veq) <==> r.None?)
    ensures l.Some? ==> OpEquals(l, r, veq) == EqualsObject(l.value, AsObject(r), veq)
    ensures OpNotEquals(l, r, veq) == !OpEquals(l, r, veq)
  {
  }

  /** Equal references have equal hash codes, given a version hash that
      respects version equality. */
  lemma HashCodeConsistent<V>(p: PackageReference<V>, o: PackageReference<V>, veq: (V, V) -> bool,
                              stringHash: string -> bv32, versionHash: V -> bv32)
    requires forall x, y :: veq(x, y) ==> versionHash(x) == versionHash(y)
    requires Consistent(p, o)
    requires EqualsObject(p, Package(o), veq)
    ensures HashCode(p, stringHash, versionHash) == HashCode(o, stringHash, versionHash)
  {
    if p.address != o.address {
      match (p.version, o.version) {
        case (Some(x), Some(y)) => assert veq(x, y);
        case _ =>
      }
    }
    assert OptionHash(p.name, stringHash) == OptionHash(o.name, stringHash);
    assert OptionHash(p.version, versionHash) == OptionHash(o.version, versionHash);
  }

  /** The text form is the name and the version's text separated by one
      space, so it splits back into them when neither holds a space. */
  lemma ToStringSplits<V>(p: PackageReference<V>, versionText: V -> string)
    requires p.name.Some? && p.version.Some?
    requires ' ' !in p.name.value && ' ' !in versionText(p.version.value)
    ensures Split(' ', ToString(p, versionText)) == [p.name.value, versionText(p.version.value)]
  {
    var parts := [p.name.value, versionText(p.version.value)];
    assert Join(' ', parts) == ToString(p, versionText) by {
      assert parts[1..] == [versionText(p.version.value)];
    }
    SplitJoin(' ', parts);
  }
}
