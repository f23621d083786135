/** The block vocabulary of the storage layer: addresses with their family
    and component tags, versions, the two block kinds and the Access block an
    Object may refer to. The cryptographic checks behind `Validate` are not
    part of this model; they are injected as the three predicates of a
    `Validator`. */
module Proton {
  import opened Elle

  /** The address family decides how a block is stored and erased. */
  datatype Family =
    | FamilyUnknown
    | FamilyContentHashBlock
    | FamilyPublicKeyBlock
    | FamilyOwnerKeyBlock
    | FamilyImprintBlock

  /** The component decides how a mutable block is validated. */
  datatype Component =
    | ComponentUnknown
    | ComponentObject
    | ComponentAccess
    | ComponentContents

  /** A block address: its two tags and the digest that identifies it. */
  datatype Address = Address(family: Family, component: Component, digest: seq<Byte>)

  /** `Address::Null`, the address an Object without an Access block refers to. */
  const Null: Address := Address(FamilyUnknown, ComponentUnknown, [])

  /** A requested version of a mutable block: a number, or `Version::Last`. */
  datatype Version = Last | Number(n: nat)

  /** A content-addressed, write-once block. */
  datatype ImmutableBlock = ImmutableBlock(payload: seq<Byte>)

  type PublicKey = seq<Byte>

  datatype Permission = Read | Write

  /** An access-control block: the permissions granted to each subject. */
  datatype Access = Access(entries: map<PublicKey, set<Permission>>)

  /** `Access::Null`: the empty access block an Object without a referenced
      Access block is validated against. */
  const NullAccess: Access := Access(map[])

  /** The metadata of an Object; `access` is `Null` when it refers to no
      Access block. */
  datatype Meta = Meta(access: Address)

  /** A versioned, owner-signed block. `Object` is the only variant whose
      validation needs a second block. */
  datatype MutableBlock =
    | Object(version: nat, meta: Meta, payload: seq<Byte>)
    | Plain(version: nat, payload: seq<Byte>)

  /** The signature and content checks the blocks perform on themselves:
      `ImmutableBlock::Validate(address)`, `MutableBlock::Validate(address)`
      and `Object::Validate(address, access)`. */
  datatype Validator = Validator(
    immutableValid: (Address, ImmutableBlock) -> bool,
    mutableValid: (Address, MutableBlock) -> bool,
    objectValid: (Address, MutableBlock, Access) -> bool)
}
