/** Labels, prefix kinds and the IP claims the backend serves.

    Label keys the source gives a meaning are constructors of `LabelKey`; every
    other key is `Custom`.  A claim carries only its specification, the status it
    is answered with belongs to the applicator. */
module Claims {
  import opened Prefixes
  import opened Wrappers

  datatype LabelKey =
    | OwnerGvk | OwnerNsnName | OwnerNsnNamespace
    | Gvk | NsnName | NsnNamespace
    | PrefixKindKey | AddressFamilyKey | SubnetKey | PoolKey | GatewayKey
    | Custom(name: string)

  datatype PrefixKind = Network | Loopback | Pool | Aggregate

  /** The kinds of resources that own claims. */
  datatype OwnerKind =
    | NetworkInstanceGvk | IPPrefixGvk | IPClaimGvk
    | VLANGvk | VLANClaimGvk
    | OtherGvk(gvk: string)

  /** Label values the backend writes or compares against a constant are
      constructors; all other text is `Text`. */
  datatype LabelValue =
    | Text(text: string)
    | KindValue(kind: PrefixKind)
    | FamilyValue(family: Family)
    | SubnetValue(subnetFamily: Family, first: nat, len: nat)
    | GvkValue(owner: OwnerKind)

  type Labels = map<LabelKey, LabelValue>

  /** Indexing a Go map: the empty text stands for a missing key. */
  function Lookup(l: Labels, k: LabelKey): LabelValue {
    if k in l then l[k] else Text("")
  }

  /** A conjunction of equality requirements; a missing key never matches. */
  predicate Matches(sel: Labels, l: Labels) {
    forall k | k in sel :: k in l && l[k] == sel[k]
  }

  predicate HasKind(l: Labels, k: PrefixKind) {
    Lookup(l, PrefixKindKey) == KindValue(k)
  }

  predicate InstanceOwned(l: Labels) {
    Lookup(l, OwnerGvk) == GvkValue(NetworkInstanceGvk)
  }

  /** The labels name an object with this name and namespace. */
  predicate NamedBy(l: Labels, name: string, namespace: string) {
    Lookup(l, NsnName) == Text(name) && Lookup(l, NsnNamespace) == Text(namespace)
  }

  /** GetSubnetName: family, first address and length. */
  function SubnetName(p: Prefix): LabelValue {
    SubnetValue(p.family, First(p), p.len)
  }

  /** The requirements that select what the owner named in some labels holds. */
  function OwnerSelectorOf(labels: Labels): Labels {
    map[NsnName := Lookup(labels, NsnName),
        NsnNamespace := Lookup(labels, NsnNamespace),
        OwnerGvk := Lookup(labels, OwnerGvk),
        OwnerNsnName := Lookup(labels, OwnerNsnName),
        OwnerNsnNamespace := Lookup(labels, OwnerNsnNamespace)]
  }

  datatype IPClaim = IPClaim(
    kind: PrefixKind,
    createPrefix: Option<bool>,
    prefix: Option<Prefix>,
    prefixLength: Option<nat>,
    labels: Labels,
    selector: Option<Labels>)
  {
    function SelectorLabels(): Labels {
      if selector.Some? then selector.value else map[]
    }

    /** GetFullLabels: selector labels override user defined ones. */
    function FullLabels(): Labels {
      labels + SelectorLabels()
    }

    function OwnerSelector(): Labels {
      OwnerSelectorOf(labels)
    }

    /** A route with these labels was made for this claim. */
    predicate Owns(l: Labels) {
      Matches(OwnerSelector(), l)
    }

    /** The test for a child that belongs to somebody else. */
    predicate Foreign(l: Labels) {
      || Lookup(l, NsnName) != Lookup(FullLabels(), NsnName)
      || Lookup(l, NsnNamespace) != Lookup(FullLabels(), NsnNamespace)
    }

    /** The claim carries its five owner labels and its selector does not
        override the name under which it is known. */
    predicate Named() {
      && (forall k | k in OwnerSelector() :: k in labels && labels[k] != Text(""))
      && NsnName !in SelectorLabels() && NsnNamespace !in SelectorLabels()
    }
  }
}
