/** The archive form of an owner key block: one two-way sequence of
    `archive & field` steps serves both to save and to load it. The
    serialisers of the individual fields are not part of this model; an
    archive records one typed item per step. */
module OwnerKey {
  import opened Elle
  import opened Proton

  type Signature = seq<Byte>

  /** The `MutableBlock` part of the block, as its own serialiser handles it. */
  datatype MutableBase = MutableBase(family: Family, component: Component, version: nat)

  /** The owner of the block: its key and its signature. */
  datatype Owner = Owner(K: PublicKey, signature: Signature)

  datatype OwnerKeyBlock = OwnerKeyBlock(base: MutableBase, K: PublicKey, stamp: Time, owner: Owner)

  /** What one `archive & field` step puts into, or takes out of, an archive. */
  datatype Item =
    | BaseItem(base: MutableBase)
    | KeyItem(key: PublicKey)
    | TimeItem(time: Time)
    | SignatureItem(signature: Signature)

  /** Two items of the same field type. */
  predicate SameKind(a: Item, b: Item)
  {
    match a
    case BaseItem(_) => b.BaseItem?
    case KeyItem(_) => b.KeyItem?
    case TimeItem(_) => b.TimeItem?
    case SignatureItem(_) => b.SignatureItem?
  }

  /** The items a save step sequence writes for `b`. */
  function Encode(b: OwnerKeyBlock): seq<Item>
  {
    [BaseItem(b.base), KeyItem(b.K), TimeItem(b.stamp), KeyItem(b.owner.K), SignatureItem(b.owner.signature)]
  }

  /** The block a load step sequence reads from the front of `s`, if the
      items there have the right types in the right order. */
  function Decode(s: seq<Item>): Option<OwnerKeyBlock>
  {
    if && |s| >= 5
       && s[0].BaseItem? && s[1].KeyItem? && s[2].TimeItem? && s[3].KeyItem? && s[4].SignatureItem?
    then Some(OwnerKeyBlock(s[0].base, s[1].key, s[2].time, Owner(s[3].key, s[4].signature)))
    else None
  }

  /** Loading what was saved restores every field, whatever follows. */
  lemma RoundTrip(b: OwnerKeyBlock, rest: seq<Item>)
    ensures Decode(Encode(b) + rest) == Some(b)
  {
  }

  /** Whatever loads was written by a save of that block: exactly five
      items, no more, in the save order. */
  lemma DecodedIsEncoded(s: seq<Item>)
    requires Decode(s).Some?
    ensures |Encode(Decode(s).value)| == 5 && s[..5] == Encode(Decode(s).value)
  {
  }

  datatype Mode = Input | Output

  /** An archive in one mode: the items written so far (output) or to be
      read from `pos` on (input). */
  class Archive {
    const mode: Mode
    var items: seq<Item>
    var pos: nat

    ghost predicate Valid()
      reads this
    {
      pos <= |items|
    }

    constructor Writer()
      ensures Valid() && mode == Output && items == [] && pos == 0
    {
      mode := Output;
      items := [];
      pos := 0;
    }

    constructor Reader(items: seq<Item>)
      ensures Valid() && mode == Input && this.items == items && pos == 0
    {
      mode := Input;
      this.items := items;
      pos := 0;
    }

    /** `archive & field`: an output archive appends the field; an input
        archive hands back the next item, which must have the field's type. */
    method Exchange(item: Item) returns (r: Option<Item>)
      requires Valid()
      modifies this
      ensures Valid()
      ensures mode == Output ==> items == old(items) + [item] && pos == old(pos) && r == Some(item)
      ensures mode == Input ==> items == old(items)
      ensures mode == Input && old(pos) < |items| && SameKind(items[old(pos)], item) ==>
                r == Some(items[old(pos)]) && pos == old(pos) + 1
      ensures mode == Input && !(old(pos) < |items| && SameKind(items[old(pos)], item)) ==>
                r == None && pos == old(pos)
      ensures r.Some? ==> SameKind(r.value, item)
    {
      if mode == Output {
        items := items + [item];
        return Some(item);
      }
      if pos < |items| && SameKind(items[pos], item) {
        r := Some(items[pos]);
        pos := pos + 1;
      } else {
        r := None;
      }
    }
  }

  /** The owner key block serialiser (serialiser version 0 only): the
      `MutableBlock` part, then `K`, `stamp`, `owner.K` and
      `owner.signature`. On an input archive, `value` is the block being
      loaded into; the result is the loaded block. */
  method Serialize(archive: Archive, value: OwnerKeyBlock, version: nat) returns (r: Option<OwnerKeyBlock>)
    requires version == 0
    requires archive.Valid()
    modifies archive
    ensures archive.Valid()
    ensures archive.mode == Output ==>
              archive.items == old(archive.items) + Encode(value) && r == Some(value)
    ensures archive.mode == Input ==>
              && archive.items == old(archive.items)
              && r == Decode(old(archive.items[archive.pos..]))
              && (r.Some? ==> archive.pos == old(archive.pos) + 5)
  {
    var base :- archive.Exchange(BaseItem(value.base));
    var k :- archive.Exchange(KeyItem(value.K));
    var stamp :- archive.Exchange(TimeItem(value.stamp));
    var ownerK :- archive.Exchange(KeyItem(value.owner.K));
    var signature :- archive.Exchange(SignatureItem(value.owner.signature));
    r := Some(OwnerKeyBlock(base.base, k.key, stamp.time, Owner(ownerK.key, signature.signature)));
  }

  /** Serialising into a fresh output archive and then from an input archive
      over the items it holds loads `value` back, whatever the block being
      loaded into held before. */
  method SaveThenLoad(value: OwnerKeyBlock, destination: OwnerKeyBlock) returns (r: Option<OwnerKeyBlock>)
    ensures r == Some(value)
  {
    var output := new Archive.Writer();
    var saved := Serialize(output, value, 0);
    var input := new Archive.Reader(output.items);
    RoundTrip(value, []);
    assert input.items[input.pos..] == Encode(value) + [];
    r := Serialize(input, destination, 0);
  }
}
