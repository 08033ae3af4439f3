/**
 * The devices that a radio knows: what source/EbNRadioBT2.cpp and source/EbNRadioBT4.cpp do in the same way with the
 * device map and the list of recent devices.
 */
module KnownDevices {
  import opened Address
  import opened Device
  import opened DeviceMap
  import opened Hiding
  import opened Radio

  ghost predicate IdsUsed<E>(base: EbNRadio<E>, deviceMap: EbNDeviceMap<E>)
    reads base, deviceMap
  {
    base.nextDeviceID >= 0 && forall id :: id in deviceMap.idToDevice ==> 0 <= id < base.nextDeviceID
  }

  /** Every device that is known is a recent one, and ids are never used again. */
  ghost predicate Indexed<E>(base: EbNRadio<E>, deviceMap: EbNDeviceMap<E>)
    reads base, deviceMap, deviceMap.addressToDevice.Values`address, deviceMap.idToDevice.Values`address
  {
    && deviceMap.Agree() && base.RecentValid() && IdsUsed(base, deviceMap)
    && base.idToRecentDevices == deviceMap.idToDevice
  }

  ghost predicate DevicesValid<E>(deviceMap: EbNDeviceMap<E>)
    reads deviceMap, deviceMap.idToDevice.Values
  {
    forall id :: id in deviceMap.idToDevice ==> deviceMap.idToDevice[id].Valid()
  }

  lemma IdsDiffer<E>(deviceMap: EbNDeviceMap<E>)
    requires deviceMap.Agree()
    ensures forall id :: id in deviceMap.idToDevice ==> deviceMap.idToDevice[id].id == id
  {
    assert Look(OfMap, 0);
  }

  /** A device that nothing is known about yet. */
  method AddDevice<E>(base: EbNRadio<E>, deviceMap: EbNDeviceMap<E>, address: Address) returns (device: EbNDevice<E>)
    requires deviceMap.Agree() && IdsUsed(base, deviceMap)
    requires |address| == deviceMap.addressSize && address !in deviceMap.addressToDevice
    modifies base`nextDeviceID, deviceMap
    ensures deviceMap.Agree() && IdsUsed(base, deviceMap) && IsNew(device, address, base.listenSet) && fresh(device)
    ensures device.id == old(base.nextDeviceID) && base.nextDeviceID == device.id + 1
    ensures deviceMap.idToDevice == old(deviceMap.idToDevice)[device.id := device]
  {
    var id := base.GenerateDeviceID();
    device := new EbNDevice<E>(id, address, base.listenSet);
    deviceMap.Add(address, device);
  }

  /** Nothing has been heard of the device, and it may match all that is listened for. */
  ghost predicate IsNew<E>(device: EbNDevice<E>, address: Address, listenSet: seq<LinkValue>)
    reads device
  {
    && device.Valid() && device.address == address && !device.reported
    && device.epochs == [] && device.matching == listenSet && device.sharedSecrets == []
    && device.rssiToReport == [] && device.secretsToReport == [] && !device.confirmed && !device.shakenHands
    && !device.updatedMatching && device.listened == listenSet
    && device.AllReports() == Reports(false, [], [], listenSet)
  }

  /** There is a device with the address, or with one that has been shifted to it. */
  ghost predicate IsKnown<E>(deviceMap: EbNDeviceMap<E>, address: Address)
    reads deviceMap
  {
    exists a :: a in deviceMap.addressToDevice && Fits(address, a)
  }

  /** Finding the device of an address, or making one. */
  method FindOrAdd<E>(base: EbNRadio<E>, deviceMap: EbNDeviceMap<E>, address: Address) returns (device: EbNDevice<E>)
    requires deviceMap.Agree() && IdsUsed(base, deviceMap) && |address| == deviceMap.addressSize
    modifies base`nextDeviceID, deviceMap, deviceMap.addressToDevice.Values`address
    ensures deviceMap.Agree() && IdsUsed(base, deviceMap) && device.address == address
    ensures device.id in deviceMap.idToDevice && deviceMap.idToDevice[device.id] == device
    ensures deviceMap.idToDevice == old(deviceMap.idToDevice)[device.id := device]
    ensures device.id in old(deviceMap.idToDevice) ==>
      base.nextDeviceID == old(base.nextDeviceID) && device == old(deviceMap.idToDevice)[device.id]
    ensures device.id !in old(deviceMap.idToDevice) ==>
      && fresh(device) && IsNew(device, address, base.listenSet) && device.id == old(base.nextDeviceID)
      && base.nextDeviceID == device.id + 1
    ensures device.id in old(deviceMap.idToDevice) <==> old(IsKnown(deviceMap, address))
    ensures forall d :: d in old(deviceMap.idToDevice.Values) && d != device ==> d.address == old(d.address)
  {
    var found := deviceMap.Get(address);
    if found == null {
      device := AddDevice(base, deviceMap, address);
    } else {
      device := found;
    }
  }

  /** A device is taken out of all indices. */
  method Forget<E>(base: EbNRadio<E>, deviceMap: EbNDeviceMap<E>, id: DeviceID)
    requires Indexed(base, deviceMap) && id in deviceMap.idToDevice
    modifies base`recentDevices, base`idToRecentDevices, deviceMap
    ensures Indexed(base, deviceMap) && deviceMap.idToDevice == old(deviceMap.idToDevice) - {id}
  {
    var removed := deviceMap.RemoveId(id);
    base.RemoveRecentDevice(id);
  }
}
