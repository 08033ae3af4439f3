/**
 * The devices that are known, by address and by id, include/EbNDeviceMap.h. A device is also found by an address that
 * its own address has been shifted to, with a search of one bucket of the address index only: the hash of an address
 * is that of its first half, and any hash will do.
 */
module DeviceMap {
  import opened Address
  import opened Device
  import opened Hiding

  function Bucket(hash: seq<Byte> -> nat, buckets: nat, first: seq<Byte>): nat
    requires buckets > 0
  {
    hash(first) % buckets
  }

  /** Every address that could have been shifted to this one is in the bucket of the unshifted address. */
  lemma ShiftsShareBucket(hash: seq<Byte> -> nat, buckets: nat, address: Address, unshifted: Address, other: Address)
    requires buckets > 0 && First(unshifted) == Second(address) && IsShiftOf(address, other)
    ensures Bucket(hash, buckets, First(other)) == Bucket(hash, buckets, First(unshifted))
  {
    assert First(other) == First(unshifted);
  }

  /** What a linear scan would accept: the address of the device itself, or one that it has been shifted to. */
  predicate Fits(address: Address, other: Address) {
    address == other || IsShiftOf(address, other)
  }

  lemma HasKey<V>(m: map<DeviceID, V>, v: V)
    requires v in m.Values
    ensures exists i :: i in m && m[i] == v
  {
    assert (forall i :: i in m ==> m[i] != v) ==> v !in m.Values;
  }

  class EbNDeviceMap<E> {
    const hash: seq<Byte> -> nat
    const addressSize: nat
    var buckets: nat
    var addressToDevice: map<Address, EbNDevice<E>>
    var idToDevice: map<DeviceID, EbNDevice<E>>

    /** Every address leads to a device that has it, and that the other index knows. */
    ghost predicate AddressesAgree()
      reads this, addressToDevice.Values`address
    {
      forall a :: a in addressToDevice ==>
        && |a| == addressSize && addressToDevice[a].address == a
        && addressToDevice[a].id in idToDevice && idToDevice[addressToDevice[a].id] == addressToDevice[a]
    }

    /** Every id leads to a device that has it, and that the other index knows. */
    ghost predicate IdsAgree()
      reads this, idToDevice.Values`address
    {
      forall i :: i in idToDevice ==>
        && idToDevice[i].id == i
        && idToDevice[i].address in addressToDevice && addressToDevice[idToDevice[i].address] == idToDevice[i]
    }

    /** The indices and the devices agree one to one. */
    ghost predicate Agree()
      reads this, addressToDevice.Values`address, idToDevice.Values`address
    {
      forall k: nat :: Look(OfMap, k) ==> buckets > 0 && AddressesAgree() && IdsAgree()
    }

    lemma SameDevices()
      requires Agree()
      ensures addressToDevice.Values == idToDevice.Values
    {
      assert Look(OfMap, 0);
      forall d | d in addressToDevice.Values ensures d in idToDevice.Values {
        var a :| a in addressToDevice && addressToDevice[a] == d;
        assert idToDevice[addressToDevice[a].id] == d;
      }
      forall d | d in idToDevice.Values ensures d in addressToDevice.Values {
        HasKey(idToDevice, d);
        var i :| i in idToDevice && idToDevice[i] == d;
        assert addressToDevice[idToDevice[i].address] == d;
      }
    }

    constructor (hash: seq<Byte> -> nat, addressSize: nat, buckets: nat)
      requires buckets > 0
      ensures Agree() && addressToDevice == map[] && idToDevice == map[] && this.addressSize == addressSize
    {
      this.hash, this.addressSize, this.buckets := hash, addressSize, buckets;
      addressToDevice, idToDevice := map[], map[];
    }

    /** The index grows: its buckets are laid out anew. */
    method Rehash(buckets: nat)
      requires Agree() && buckets > 0
      modifies this`buckets
      ensures Agree() && this.buckets == buckets
    {
      this.buckets := buckets;
    }

    method FindExactMatch(address: Address) returns (device: EbNDevice?<E>)
      ensures device == null <==> address !in addressToDevice
      ensures device != null ==> device == addressToDevice[address]
    {
      device := if address in addressToDevice then addressToDevice[address] else null;
    }

    /** The search of a bucket for an address that has been shifted to this one. */
    method SearchBucket(address: Address) returns (found: bool, other: Address)
      requires Agree() && |address| == addressSize
      ensures found <==> exists a :: a in addressToDevice && IsShiftOf(address, a)
      ensures found ==> other in addressToDevice && IsShiftOf(address, other)
    {
      assert Look(OfMap, 0);
      var oldAddress := Unshift(address);
      var bucket := Bucket(hash, buckets, First(oldAddress));
      var left := set a | a in addressToDevice && Bucket(hash, buckets, First(a)) == bucket;
      found, other := false, address;
      forall a | a in addressToDevice && IsShiftOf(address, a) ensures a in left {
        ShiftsShareBucket(hash, buckets, address, oldAddress, a);
      }
      while left != {} && !found
        invariant left <= addressToDevice.Keys
        invariant found ==> other in addressToDevice && IsShiftOf(address, other)
        invariant !found ==> forall a :: a in addressToDevice && IsShiftOf(address, a) ==> a in left
        decreases |left|, !found
      {
        var a :| a in left;
        found := IsShift(address, a);
        if found { other := a; } else { left := left - {a}; }
      }
    }

    /** A device gets a new address. */
    method Move(device: EbNDevice<E>, address: Address)
      requires Agree() && |address| == addressSize && address !in addressToDevice
      requires device.address in addressToDevice && addressToDevice[device.address] == device
      modifies this`addressToDevice, device`address
      ensures Agree() && device.address == address
      ensures addressToDevice == (old(addressToDevice) - {old(device.address)})[address := device]
    {
      assert Look(OfMap, 0);
      var other := device.address;
      device.SetAddress(address);
      addressToDevice := addressToDevice - {other};
      addressToDevice := addressToDevice[address := device];
    }

    /** findShiftedMatch: the device moves to the new address. */
    method FindShiftedMatch(address: Address) returns (device: EbNDevice?<E>)
      requires Agree() && |address| == addressSize && address !in addressToDevice
      modifies this`addressToDevice, addressToDevice.Values`address
      ensures Agree() && idToDevice == old(idToDevice)
      ensures device == null <==> forall a :: a in old(addressToDevice) ==> !IsShiftOf(address, a)
      ensures device == null ==> addressToDevice == old(addressToDevice)
      ensures device != null ==>
        && device in old(addressToDevice.Values)
        && old(device.address) in old(addressToDevice) && device == old(addressToDevice)[old(device.address)]
        && IsShiftOf(address, old(device.address)) && device.address == address
        && addressToDevice == (old(addressToDevice) - {old(device.address)})[address := device]
      ensures forall d :: d in old(addressToDevice.Values) && d != device ==> d.address == old(d.address)
    {
      assert Look(OfMap, 0);
      var found, other := SearchBucket(address);
      device := null;
      if found {
        device := addressToDevice[other];
        Move(device, address);
      }
    }

    method GetById(id: DeviceID) returns (device: EbNDevice?<E>)
      ensures device == null <==> id !in idToDevice
      ensures device != null ==> device == idToDevice[id]
    {
      device := if id in idToDevice then idToDevice[id] else null;
    }

    /** get: finds a device exactly when a linear scan would, and the device then has the address. */
    method Get(address: Address) returns (device: EbNDevice?<E>)
      requires Agree() && |address| == addressSize
      modifies this`addressToDevice, addressToDevice.Values`address
      ensures Agree() && idToDevice == old(idToDevice)
      ensures device != null <==> exists a :: a in old(addressToDevice) && Fits(address, a)
      ensures device == null ==> addressToDevice == old(addressToDevice) && address !in addressToDevice
      ensures device != null ==>
        && device.id in idToDevice && device == idToDevice[device.id] && device in old(addressToDevice.Values)
        && device.address == address
        && Fits(address, old(device.address)) && address in addressToDevice && device == addressToDevice[address]
      ensures forall d :: d in old(addressToDevice.Values) && d != device ==> d.address == old(d.address)
    {
      assert Look(OfMap, 0);
      device := FindExactMatch(address);
      if device == null {
        device := FindShiftedMatch(address);
      }
    }

    /** add: an index that has the key already stays as it is. The insertion may make the index grow. */
    method Add(address: Address, device: EbNDevice<E>)
      requires Agree() && device.address == address && |address| == addressSize
      modifies this`addressToDevice, this`idToDevice, this`buckets
      ensures addressToDevice == if address in old(addressToDevice) then old(addressToDevice)
                                 else old(addressToDevice)[address := device]
      ensures idToDevice == if device.id in old(idToDevice) then old(idToDevice)
                            else old(idToDevice)[device.id := device]
      ensures address !in old(addressToDevice) && device.id !in old(idToDevice) ==> Agree()
    {
      var grown: nat := *;
      if grown > buckets { Rehash(grown); }
      assert Look(OfMap, 0);
      if address !in addressToDevice { addressToDevice := addressToDevice[address := device]; }
      if device.id !in idToDevice { idToDevice := idToDevice[device.id := device]; }
    }

    method RemoveAddress(address: Address) returns (removed: bool)
      requires Agree()
      modifies this`addressToDevice, this`idToDevice
      ensures Agree() && removed == (address in old(addressToDevice))
      ensures addressToDevice == old(addressToDevice) - {address}
      ensures idToDevice == if removed then old(idToDevice) - {old(addressToDevice)[address].id} else old(idToDevice)
    {
      assert Look(OfMap, 0);
      removed := address in addressToDevice;
      if removed {
        var device := addressToDevice[address];
        idToDevice := idToDevice - {device.id};
        addressToDevice := addressToDevice - {address};
      } else {
        assert addressToDevice - {address} == addressToDevice;
      }
    }

    method RemoveId(id: DeviceID) returns (removed: bool)
      requires Agree()
      modifies this`addressToDevice, this`idToDevice
      ensures Agree() && removed == (id in old(idToDevice))
      ensures idToDevice == old(idToDevice) - {id}
      ensures addressToDevice == if removed then old(addressToDevice) - {old(idToDevice)[id].address}
                                 else old(addressToDevice)
    {
      assert Look(OfMap, 0);
      removed := id in idToDevice;
      if removed {
        var device := idToDevice[id];
        addressToDevice := addressToDevice - {device.address};
        idToDevice := idToDevice - {id};
      } else {
        assert idToDevice - {id} == idToDevice;
      }
    }

    method Clear()
      requires Agree()
      modifies this`addressToDevice, this`idToDevice
      ensures Agree() && addressToDevice == map[] && idToDevice == map[]
    {
      addressToDevice, idToDevice := map[], map[];
    }
  }
}
