/** The local hole machine: the single-node admission engine that puts, gets
    and kills blocks in a persistence backend. Immutable blocks are
    write-once; mutable blocks are validated according to their component
    before they are stored and again after they are loaded. */
module Hole {
  import opened Elle
  import opened Proton

  /** Why an operation escaped, one alternative per error path. */
  datatype Reason =
    | AlreadyExists      // the immutable block already exists
    | StoreFailed        // the backend could not store the block
    | AccessUnavailable  // the Access block referenced by an Object could not be pulled
    | ObjectInvalid      // the Object did not validate against its Access block
    | BlockInvalid       // the block did not validate through the common interface
    | UnknownComponent   // the address carries ComponentUnknown
    | NotFound           // the block does not exist
    | LoadFailed         // the backend could not load the block
    | EraseFailed        // the backend could not erase the block
    | UnknownFamily      // the address family is not one the machine handles

  datatype Status = Ok | Error(failure: Reason)

  datatype Result<T> = Success(value: T) | Failure(failure: Reason)

  /** The answer of a backend existence check: `elle::Status::True`,
      `elle::Status::False`, or an error status (`Unreadable`). */
  datatype Presence = True | False | Unreadable

  /** The Access block a mutable block is validated against: for an Object
      whose `meta.access` is not `Null`, the block pulled at `Version::Last`
      (`None` when the pull fails); `Access::Null` otherwise. */
  function Granting(pull: Address -> Option<Access>, address: Address, block: MutableBlock): Option<Access>
  {
    if address.component == ComponentObject && block.Object? && block.meta.access != Null
    then pull(block.meta.access)
    else Some(NullAccess)
  }

  /** Declarative statement of a block that may be admitted at `address` when
      `granted` is the Access block it is checked against. */
  ghost predicate Admissible(v: Validator, address: Address, block: MutableBlock, granted: Access)
  {
    match address.component
    case ComponentUnknown => false
    case ComponentObject =>
      && block.Object?
      && (block.meta.access == Null ==> granted == NullAccess)
      && v.objectValid(address, block, granted)
    case _ => v.mutableValid(address, block)
  }

  /** The validation switch shared by the mutable `Put` and the mutable `Get`:
      an Object first pulls its Access block (when it refers to one) and is
      validated against it; any other known component validates itself;
      `ComponentUnknown` is refused. */
  function Admission(v: Validator, pull: Address -> Option<Access>, address: Address, block: MutableBlock): (s: Status)
    requires address.component == ComponentObject ==> block.Object?
    ensures s.Ok? <==> Granting(pull, address, block).Some? && Admissible(v, address, block, Granting(pull, address, block).value)
    ensures address.component == ComponentUnknown ==> s == Error(UnknownComponent)
    ensures address.component != ComponentUnknown && Granting(pull, address, block).None? ==> s == Error(AccessUnavailable)
    ensures s.Error? && address.component != ComponentUnknown && Granting(pull, address, block).Some? ==>
              s.failure == (if address.component == ComponentObject then ObjectInvalid else BlockInvalid)
  {
    match address.component
    case ComponentObject =>
      if block.meta.access != Null then
        match pull(block.meta.access)
        case None => Error(AccessUnavailable)
        case Some(access) => if v.objectValid(address, block, access) then Ok else Error(ObjectInvalid)
      else
        if v.objectValid(address, block, NullAccess) then Ok else Error(ObjectInvalid)
    case ComponentUnknown => Error(UnknownComponent)
    case _ => if v.mutableValid(address, block) then Ok else Error(BlockInvalid)
  }

  /** Only the Access block an Object refers to is consulted: two pull
      functions that agree on it give the same verdict. */
  lemma AdmissionDependsOnReferencedAccess(v: Validator, p1: Address -> Option<Access>, p2: Address -> Option<Access>,
                                           address: Address, block: MutableBlock)
    requires address.component == ComponentObject ==> block.Object?
    requires address.component == ComponentObject && block.meta.access != Null ==> p1(block.meta.access) == p2(block.meta.access)
    ensures Admission(v, p1, address, block) == Admission(v, p2, address, block)
  {
  }

  /** The key-addressed families: their blocks are erased as mutable blocks. */
  predicate IsKeyFamily(f: Family)
  {
    f == FamilyPublicKeyBlock || f == FamilyOwnerKeyBlock || f == FamilyImprintBlock
  }

  /** Every version of `address` removed from a mutable store. */
  function WithoutLineage(m: map<(Address, nat), MutableBlock>, address: Address): (r: map<(Address, nat), MutableBlock>)
    ensures forall k :: k in r <==> k in m && k.0 != address
    ensures forall k | k in r :: r[k] == m[k]
  {
    map k | k in m && k.0 != address :: m[k]
  }

  class Machine {
    /** The self-checks of the blocks. */
    const validator: Validator
    /** Addresses on which the backend's existence check reports an I/O error. */
    const existFaulty: set<Address>
    /** Addresses on which the backend's store, load and erase report an I/O error. */
    const faulty: set<Address>

    /** The backend: one block per immutable address, one block per
        (address, version) for mutable addresses, and the "Last" pointer of
        each mutable address. */
    var immutables: map<Address, ImmutableBlock>
    var mutables: map<(Address, nat), MutableBlock>
    var last: map<Address, nat>
    /** The Access block each stored mutable block was validated against. */
    ghost var grants: map<(Address, nat), Access>

    /** Every stored mutable block sits under its own version, its address
        has a "Last" pointer to a stored version, and it was admitted. */
    ghost predicate Valid()
      reads this
    {
      && (forall a | a in last :: (a, last[a]) in mutables)
      && (forall k | k in mutables ::
            && k.0 in last
            && mutables[k].version == k.1
            && k in grants
            && Admissible(validator, k.0, mutables[k], grants[k]))
    }

    constructor (validator: Validator, existFaulty: set<Address>, faulty: set<Address>)
      ensures Valid()
      ensures this.validator == validator && this.existFaulty == existFaulty && this.faulty == faulty
      ensures immutables == map[] && mutables == map[] && last == map[]
    {
      this.validator := validator;
      this.existFaulty := existFaulty;
      this.faulty := faulty;
      immutables := map[];
      mutables := map[];
      last := map[];
      grants := map[];
    }

    /** `ImmutableBlock::Exist`: an error status when the check itself fails,
        otherwise whether a block is stored at `address`. */
    function ExistImmutable(address: Address): (p: Presence)
      reads this
      ensures p == Unreadable <==> address in existFaulty
      ensures p == True <==> address !in existFaulty && address in immutables
      ensures p == False <==> address !in existFaulty && address !in immutables
    {
      if address in existFaulty then Unreadable
      else if address in immutables then True
      else False
    }

    /** The version number a requested version designates, if any. */
    function Resolve(address: Address, version: Version): (n: Option<nat>)
      reads this
      ensures version.Number? ==> n == Some(version.n)
      ensures version.Last? ==> (n.Some? <==> address in last)
    {
      match version
      case Number(n) => Some(n)
      case Last => if address in last then Some(last[address]) else None
    }

    /** The block `MutableBlock::Load` finds at the version `version`
        designates, ignoring I/O errors. */
    function LoadMutable(address: Address, version: Version): (b: Option<MutableBlock>)
      reads this
      ensures b.Some? <==> Resolve(address, version).Some? && (address, Resolve(address, version).value) in mutables
      ensures b.Some? ==> b.value == mutables[(address, Resolve(address, version).value)]
    {
      match Resolve(address, version)
      case None => None
      case Some(n) => if (address, n) in mutables then Some(mutables[(address, n)]) else None
    }

    /** `MutableBlock::Exist` at a version: an error status when the check
        itself fails, otherwise whether the version it designates is stored. */
    function ExistMutable(address: Address, version: Version): (p: Presence)
      reads this
      ensures p == Unreadable <==> address in existFaulty
      ensures p == True <==> address !in existFaulty && LoadMutable(address, version).Some?
      ensures p == False <==> address !in existFaulty && LoadMutable(address, version).None?
    {
      if address in existFaulty then Unreadable
      else
        match Resolve(address, version)
        case None => False
        case Some(n) => if (address, n) in mutables then True else False
    }

    /** `ImmutableBlock::Store`: overwrites whatever is stored at `address`. */
    method StoreImmutable(address: Address, block: ImmutableBlock) returns (ok: bool)
      modifies this
      ensures ok == (address !in faulty)
      ensures immutables == if ok then old(immutables)[address := block] else old(immutables)
      ensures mutables == old(mutables) && last == old(last) && grants == old(grants)
    {
      ok := address !in faulty;
      if ok {
        immutables := immutables[address := block];
      }
    }

    method StoreMutable(address: Address, block: MutableBlock) returns (ok: bool)
      modifies this
      ensures ok == (address !in faulty)
      ensures mutables == if ok then old(mutables)[(address, block.version) := block] else old(mutables)
      ensures last == if ok then old(last)[address := block.version] else old(last)
      ensures immutables == old(immutables) && grants == old(grants)
    {
      ok := address !in faulty;
      if ok {
        mutables := mutables[(address, block.version) := block];
        last := last[address := block.version];
      }
    }

    /** `ImmutableBlock::Erase`: erasing an absent block is not an error. */
    method EraseImmutable(address: Address) returns (ok: bool)
      modifies this
      ensures ok == (address !in faulty)
      ensures immutables == if ok then old(immutables) - {address} else old(immutables)
      ensures mutables == old(mutables) && last == old(last) && grants == old(grants)
    {
      ok := address !in faulty;
      if ok {
        immutables := immutables - {address};
      }
    }

    /** `MutableBlock::Erase`: every version and the "Last" pointer go. */
    method EraseMutable(address: Address) returns (ok: bool)
      modifies this
      ensures ok == (address !in faulty)
      ensures mutables == if ok then WithoutLineage(old(mutables), address) else old(mutables)
      ensures last == if ok then old(last) - {address} else old(last)
      ensures immutables == old(immutables) && grants == old(grants)
    {
      ok := address !in faulty;
      if ok {
        mutables := WithoutLineage(mutables, address);
        last := last - {address};
      }
    }

    /** Stores an immutable block: refused when the existence check answers
        that the block exists, stored without validation otherwise. An
        existence check that fails does not stop the store, so the block is
        write-once only where that check answers. */
    method PutImmutable(address: Address, block: ImmutableBlock) returns (s: Status)
      requires Valid()
      modifies this
      ensures Valid()
      ensures address !in existFaulty && address in old(immutables) ==> s == Error(AlreadyExists)
      ensures (address in existFaulty || address !in old(immutables)) && address in faulty ==> s == Error(StoreFailed)
      ensures s.Ok? <==> (address in existFaulty || address !in old(immutables)) && address !in faulty
      ensures address in existFaulty && address !in faulty ==> s == Ok && immutables == old(immutables)[address := block]
      ensures immutables == if s.Ok? then old(immutables)[address := block] else old(immutables)
      ensures mutables == old(mutables) && last == old(last)
    {
      if ExistImmutable(address) == True {
        return Error(AlreadyExists);
      }
      var stored := StoreImmutable(address, block);
      if !stored {
        return Error(StoreFailed);
      }
      return Ok;
    }

    /** Stores a mutable block once it passes the validation of its
        component. Nothing compares its version with the stored ones. */
    method PutMutable(address: Address, block: MutableBlock, pull: Address -> Option<Access>) returns (s: Status)
      requires Valid()
      requires address.component == ComponentObject ==> block.Object?
      modifies this
      ensures Valid()
      ensures Admission(validator, pull, address, block).Error? ==> s == Admission(validator, pull, address, block)
      ensures Admission(validator, pull, address, block).Ok? && address in faulty ==> s == Error(StoreFailed)
      ensures s.Ok? <==> Admission(validator, pull, address, block).Ok? && address !in faulty
      ensures mutables == if s.Ok? then old(mutables)[(address, block.version) := block] else old(mutables)
      ensures last == if s.Ok? then old(last)[address := block.version] else old(last)
      ensures immutables == old(immutables)
    {
      var verdict := Admission(validator, pull, address, block);
      if verdict.Error? {
        return verdict;
      }
      ghost var granted := Granting(pull, address, block).value;
      var stored := StoreMutable(address, block);
      if !stored {
        return Error(StoreFailed);
      }
      grants := grants[(address, block.version) := granted];
      return Ok;
    }

    /** Loads and validates an immutable block. Only an existence check that
        answers `False` stops the load. */
    method GetImmutable(address: Address) returns (r: Result<ImmutableBlock>)
      ensures ExistImmutable(address) == False ==> r == Failure(NotFound)
      ensures address in existFaulty && address !in immutables ==> r == Failure(LoadFailed)
      ensures ExistImmutable(address) != False && address in faulty ==> r == Failure(LoadFailed)
      ensures r.Success? <==> address in immutables && address !in faulty && validator.immutableValid(address, immutables[address])
      ensures r.Success? ==> r.value == immutables[address]
      ensures address in immutables && address !in faulty && !validator.immutableValid(address, immutables[address]) ==>
                r == Failure(BlockInvalid)
    {
      if ExistImmutable(address) == False {
        return Failure(NotFound);
      }
      if address in faulty || address !in immutables {
        return Failure(LoadFailed);
      }
      var block := immutables[address];
      if !validator.immutableValid(address, block) {
        return Failure(BlockInvalid);
      }
      return Success(block);
    }

    /** Loads the block stored at `(address, version)` and validates it as
        `PutMutable` does; a block validated against `Access::Null` or
        through the common interface when it was put always comes back. Only
        an existence check that answers `False` stops the load. */
    method GetMutable(address: Address, version: Version, pull: Address -> Option<Access>) returns (r: Result<MutableBlock>)
      requires Valid()
      ensures ExistMutable(address, version) == False ==> r == Failure(NotFound)
      ensures address in existFaulty && LoadMutable(address, version).None? ==> r == Failure(LoadFailed)
      ensures ExistMutable(address, version) != False && address in faulty ==> r == Failure(LoadFailed)
      ensures r.Success? ==> address !in faulty && LoadMutable(address, version) == Some(r.value)
      ensures LoadMutable(address, version).Some? && address !in faulty ==>
                var stored := LoadMutable(address, version).value;
                && (r.Success? <==> Admission(validator, pull, address, stored).Ok?)
                && (r.Success? ==> r.value == stored)
                && (r.Failure? ==> r.failure == Admission(validator, pull, address, stored).failure)
                && (address.component != ComponentObject || stored.meta.access == Null ==> r.Success?)
    {
      if ExistMutable(address, version) == False {
        return Failure(NotFound);
      }
      var loaded := LoadMutable(address, version);
      if address in faulty || loaded.None? {
        return Failure(LoadFailed);
      }
      var block := loaded.value;
      var verdict := Admission(validator, pull, address, block);
      if verdict.Error? {
        return Failure(verdict.failure);
      }
      return Success(block);
    }

    /** Erases a block according to its address family. */
    method Kill(address: Address) returns (s: Status)
      requires Valid()
      modifies this
      ensures Valid()
      ensures address.family == FamilyUnknown ==> s == Error(UnknownFamily)
      ensures address.family != FamilyUnknown && address in faulty ==> s == Error(EraseFailed)
      ensures s.Ok? <==> address.family != FamilyUnknown && address !in faulty
      ensures immutables == if s.Ok? && address.family == FamilyContentHashBlock then old(immutables) - {address} else old(immutables)
      ensures mutables == if s.Ok? && IsKeyFamily(address.family) then WithoutLineage(old(mutables), address) else old(mutables)
      ensures last == if s.Ok? && IsKeyFamily(address.family) then old(last) - {address} else old(last)
      ensures s.Ok? && IsKeyFamily(address.family) ==> forall v :: LoadMutable(address, v).None?
      ensures s.Ok? && address.family == FamilyContentHashBlock ==> address !in immutables
    {
      match address.family {
        case FamilyContentHashBlock =>
          var erased := EraseImmutable(address);
          if !erased {
            return Error(EraseFailed);
          }
        case FamilyPublicKeyBlock | FamilyOwnerKeyBlock | FamilyImprintBlock =>
          var erased := EraseMutable(address);
          if !erased {
            return Error(EraseFailed);
          }
        case FamilyUnknown =>
          return Error(UnknownFamily);
      }
      return Ok;
    }
  }

  /** An immutable block is written once: a second Put on its address is
      refused, and a Get still returns the first block. */
  method WriteOnce(v: Validator, address: Address, first: ImmutableBlock, second: ImmutableBlock)
    returns (put1: Status, put2: Status, got: Result<ImmutableBlock>)
    requires v.immutableValid(address, first)
    ensures put1 == Ok && put2 == Error(AlreadyExists) && got == Success(first)
  {
    var machine := new Machine(v, {}, {});
    put1 := machine.PutImmutable(address, first);
    put2 := machine.PutImmutable(address, second);
    got := machine.GetImmutable(address);
  }

  /** When the existence check fails, an immutable Put goes on to store: a
      second Put on the same address succeeds and replaces the first block. */
  method OverwriteWhenExistFails(v: Validator, address: Address, first: ImmutableBlock, second: ImmutableBlock)
    returns (put1: Status, put2: Status, got: Result<ImmutableBlock>)
    requires v.immutableValid(address, second)
    ensures put1 == Ok && put2 == Ok && got == Success(second)
  {
    var machine := new Machine(v, {address}, {});
    put1 := machine.PutImmutable(address, first);
    put2 := machine.PutImmutable(address, second);
    got := machine.GetImmutable(address);
  }

  /** A mutable Put does not compare versions: after storing version `newer`
      and then version `older`, the "Last" version is `older`. */
  method LastWriteWins(v: Validator, address: Address, payload: seq<Byte>, newer: nat, older: nat)
    returns (put1: Status, put2: Status, got: Result<MutableBlock>)
    requires address.component == ComponentAccess || address.component == ComponentContents
    requires older < newer
    requires v.mutableValid(address, Plain(newer, payload)) && v.mutableValid(address, Plain(older, payload))
    ensures put1 == Ok && put2 == Ok && got == Success(Plain(older, payload))
  {
    var machine := new Machine(v, {}, {});
    var pull := (a: Address) => None;
    put1 := machine.PutMutable(address, Plain(newer, payload), pull);
    put2 := machine.PutMutable(address, Plain(older, payload), pull);
    got := machine.GetMutable(address, Last, pull);
  }

  /** After a successful Kill of a mutable address, a Get of its last
      version finds nothing. */
  method KillThenGet(v: Validator, address: Address, block: MutableBlock)
    returns (put: Status, kill: Status, got: Result<MutableBlock>)
    requires IsKeyFamily(address.family)
    requires address.component == ComponentAccess || address.component == ComponentContents
    requires v.mutableValid(address, block)
    ensures put == Ok && kill == Ok && got == Failure(NotFound)
  {
    var machine := new Machine(v, {}, {});
    var pull := (a: Address) => None;
    put := machine.PutMutable(address, block, pull);
    kill := machine.Kill(address);
    got := machine.GetMutable(address, Last, pull);
  }
}
