/** DS2482DeviceFactory: opens the I2C device of a bridge, builds the bridge
    and resets its first channel to make sure a bridge answers. Opening an
    I2C device (I2cDevice.Create) becomes `new I2cDevice`, and the bytes the
    chip will answer with are a parameter of the methods that open one. */
module Factory {
  import opened Errors
  import opened I2c
  import opened Ds2482Protocol
  import opened Bus

  /** The I2C bus the pin overloads open. */
  const DefaultBusId := 1
  /** The DS2482 address with every address pin low. */
  const BaseAddress: bv8 := 0x18

  /** The I2C address of a DS2482-100 wired with the given AD0 and AD1 pins. */
  function Ds2482_100Address(ad0: bool, ad1: bool): (address: bv8)
    ensures 0x18 <= address <= 0x1B
    ensures address & 0xFC == BaseAddress
    ensures (address & 1 != 0 <==> ad0) && (address & 2 != 0 <==> ad1)
  {
    var address := if ad0 then BaseAddress | (1 << 0) else BaseAddress;
    if ad1 then address | (1 << 1) else address
  }

  /** The I2C address of a DS2482-800 wired with the given AD0, AD1 and AD2 pins. */
  function Ds2482_800Address(ad0: bool, ad1: bool, ad2: bool): (address: bv8)
    ensures 0x18 <= address <= 0x1F
    ensures address & 0xF8 == BaseAddress
    ensures (address & 1 != 0 <==> ad0) && (address & 2 != 0 <==> ad1) && (address & 4 != 0 <==> ad2)
  {
    var address := if ad0 then BaseAddress | (1 << 0) else BaseAddress;
    var address := if ad1 then address | (1 << 1) else address;
    if ad2 then address | (1 << 2) else address
  }

  /** Distinct pin settings give distinct DS2482-100 addresses. */
  lemma Ds2482_100AddressInjective(ad0: bool, ad1: bool, bd0: bool, bd1: bool)
    requires Ds2482_100Address(ad0, ad1) == Ds2482_100Address(bd0, bd1)
    ensures ad0 == bd0 && ad1 == bd1
  {
  }

  /** Distinct pin settings give distinct DS2482-800 addresses. */
  lemma Ds2482_800AddressInjective(ad0: bool, ad1: bool, ad2: bool, bd0: bool, bd1: bool, bd2: bool)
    requires Ds2482_800Address(ad0, ad1, ad2) == Ds2482_800Address(bd0, bd1, bd2)
    ensures ad0 == bd0 && ad1 == bd1 && ad2 == bd2
  {
  }

  /** With AD2 low, both chips answer on the same address for the same pins. */
  lemma SameAddressWithoutAd2(ad0: bool, ad1: bool)
    ensures Ds2482_800Address(ad0, ad1, false) == Ds2482_100Address(ad0, ad1)
  {
  }

  /** A bridge as the factory hands it out: on the given device and table,
      with its channels, an empty device cache, and its first channel
      selected. */
  ghost predicate NewBridge(b: Ds2482, device: I2cDevice, deviceTypes: DeviceTypeRegistry,
                            disposeI2cDevice: bool, variant: BridgeVariant)
    reads b
  {
    b.device == device && b.deviceTypes == deviceTypes &&
    b.disposeI2cDevice == disposeI2cDevice && b.variant == variant &&
    b.Valid() && b.oneWireDevices == [] && !b.initialized && b.IsCorrectChannelSelected(IO0)
  }

  /** PrivateCreateDs2482_100 and PrivateCreateDS2482_800: build the bridge,
      then reset its first channel; any failure of the reset is reported as
      "device not found" wrapping its cause. A reset that finds no 1-Wire
      device is not a failure. */
  method PrivateCreate(i2cDevice: I2cDevice, deviceTypes: DeviceTypeRegistry, disposeI2cDevice: bool,
                       variant: BridgeVariant) returns (r: Result<Ds2482>)
    modifies i2cDevice
    ensures var reset := ResetReplies(variant == Ds2482_100, IO0, old(i2cDevice.replies));
      i2cDevice.replies == reset.1 &&
      (r.Err? <==> reset.0.Err?) &&
      (r.Err? ==> r.error == DeviceNotFound(variant, reset.0.error))
    ensures i2cDevice.log ==
      old(i2cDevice.log) + ResetLog(variant == Ds2482_100, IO0, old(i2cDevice.replies))
    ensures r.Ok? ==> fresh(r.value) && NewBridge(r.value, i2cDevice, deviceTypes, disposeI2cDevice, variant)
    ensures i2cDevice.disposed == old(i2cDevice.disposed)
  {
    var bridge := new Ds2482(i2cDevice, deviceTypes, disposeI2cDevice, variant);
    var reset := bridge.OneWireReset();
    if reset.Err? {
      r := Err(DeviceNotFound(variant, reset.error));
    } else {
      r := Ok(bridge);
    }
  }

  /** CreateDS2482_100(ad0, ad1): the bridge on bus 1 at the pins' address,
      owning the device it opens. */
  method CreateDs2482_100(ad0: bool, ad1: bool, deviceTypes: DeviceTypeRegistry, replies: seq<bv8>)
    returns (r: Result<Ds2482>)
    ensures r.Err? <==> ResetReplies(true, IO0, replies).0.Err?
    ensures r.Err? ==> r.error == DeviceNotFound(Ds2482_100, ResetReplies(true, IO0, replies).0.error)
    ensures r.Ok? ==> r.value.device.busId == DefaultBusId && r.value.device.address == Ds2482_100Address(ad0, ad1) as int
    ensures r.Ok? ==> fresh(r.value.device) && NewBridge(r.value, r.value.device, deviceTypes, true, Ds2482_100)
    ensures r.Ok? ==> !r.value.device.disposed && r.value.device.log == ResetLog(true, IO0, replies)
  {
    r := CreateDs2482_100OnBus(DefaultBusId, Ds2482_100Address(ad0, ad1) as int, deviceTypes, replies);
  }

  /** CreateDS2482_100(busId, address): the bridge owns the device it opens. */
  method CreateDs2482_100OnBus(busId: int, address: int, deviceTypes: DeviceTypeRegistry, replies: seq<bv8>)
    returns (r: Result<Ds2482>)
    ensures r.Err? <==> ResetReplies(true, IO0, replies).0.Err?
    ensures r.Err? ==> r.error == DeviceNotFound(Ds2482_100, ResetReplies(true, IO0, replies).0.error)
    ensures r.Ok? ==> r.value.device.busId == busId && r.value.device.address == address
    ensures r.Ok? ==> fresh(r.value.device) && NewBridge(r.value, r.value.device, deviceTypes, true, Ds2482_100)
    ensures r.Ok? ==> !r.value.device.disposed && r.value.device.log == ResetLog(true, IO0, replies)
  {
    var device := new I2cDevice(busId, address, replies);
    r := PrivateCreate(device, deviceTypes, true, Ds2482_100);
  }

  /** CreateDS2482_100(i2cDevice): the caller keeps ownership of the device;
      a missing device is refused before any reset. */
  method CreateDs2482_100WithDevice(i2cDevice: I2cDevice?, deviceTypes: DeviceTypeRegistry)
    returns (r: Result<Ds2482>)
    modifies i2cDevice
    ensures i2cDevice == null ==> r == Err(NullArgument)
    ensures i2cDevice != null ==>
      (r.Err? <==> ResetReplies(true, IO0, old(i2cDevice.replies)).0.Err?) &&
      (r.Err? ==> r.error == DeviceNotFound(Ds2482_100, ResetReplies(true, IO0, old(i2cDevice.replies)).0.error)) &&
      i2cDevice.log == old(i2cDevice.log) + [Frame.Write([ONEWIRE_RESET])]
    ensures r.Ok? ==> i2cDevice != null && NewBridge(r.value, i2cDevice, deviceTypes, false, Ds2482_100)
  {
    if i2cDevice == null {
      return Err(NullArgument);
    }
    r := PrivateCreate(i2cDevice, deviceTypes, false, Ds2482_100);
  }

  /** CreateDS2482_800(ad0, ad1, ad2): the bridge on bus 1 at the pins'
      address, owning the device it opens. */
  method CreateDs2482_800(ad0: bool, ad1: bool, ad2: bool, deviceTypes: DeviceTypeRegistry, replies: seq<bv8>)
    returns (r: Result<Ds2482>)
    ensures r.Err? <==> ResetReplies(false, IO0, replies).0.Err?
    ensures r.Err? ==> r.error == DeviceNotFound(Ds2482_800, ResetReplies(false, IO0, replies).0.error)
    ensures r.Ok? ==> r.value.device.busId == DefaultBusId && r.value.device.address == Ds2482_800Address(ad0, ad1, ad2) as int
    ensures r.Ok? ==> fresh(r.value.device) && NewBridge(r.value, r.value.device, deviceTypes, true, Ds2482_800)
    ensures r.Ok? ==> !r.value.device.disposed && r.value.device.log == ResetLog(false, IO0, replies)
  {
    r := CreateDs2482_800OnBus(DefaultBusId, Ds2482_800Address(ad0, ad1, ad2) as int, deviceTypes, replies);
  }

  /** CreateDS2482_800(busId, address): the bridge owns the device it opens. */
  method CreateDs2482_800OnBus(busId: int, address: int, deviceTypes: DeviceTypeRegistry, replies: seq<bv8>)
    returns (r: Result<Ds2482>)
    ensures r.Err? <==> ResetReplies(false, IO0, replies).0.Err?
    ensures r.Err? ==> r.error == DeviceNotFound(Ds2482_800, ResetReplies(false, IO0, replies).0.error)
    ensures r.Ok? ==> r.value.device.busId == busId && r.value.device.address == address
    ensures r.Ok? ==> fresh(r.value.device) && NewBridge(r.value, r.value.device, deviceTypes, true, Ds2482_800)
    ensures r.Ok? ==> !r.value.device.disposed && r.value.device.log == ResetLog(false, IO0, replies)
  {
    var device := new I2cDevice(busId, address, replies);
    r := PrivateCreate(device, deviceTypes, true, Ds2482_800);
  }

  /** CreateDS2482_800(i2cDevice): the caller keeps ownership of the device;
      a missing device is refused before any reset. */
  method CreateDs2482_800WithDevice(i2cDevice: I2cDevice?, deviceTypes: DeviceTypeRegistry)
    returns (r: Result<Ds2482>)
    modifies i2cDevice
    ensures i2cDevice == null ==> r == Err(NullArgument)
    ensures i2cDevice != null ==>
      (r.Err? <==> ResetReplies(false, IO0, old(i2cDevice.replies)).0.Err?) &&
      (r.Err? ==> r.error == DeviceNotFound(Ds2482_800, ResetReplies(false, IO0, old(i2cDevice.replies)).0.error)) &&
      i2cDevice.log == old(i2cDevice.log) + ResetLog(false, IO0, old(i2cDevice.replies))
    ensures r.Ok? ==> i2cDevice != null && NewBridge(r.value, i2cDevice, deviceTypes, false, Ds2482_800)
  {
    if i2cDevice == null {
      return Err(NullArgument);
    }
    r := PrivateCreate(i2cDevice, deviceTypes, false, Ds2482_800);
  }

  /** A status byte with the busy bit clear and a presence pulse seen. */
  const PresenceStatus: bv8 := 0x02

  /** A DS2482-100 opened from a bus id and address that answers its reset:
      the bridge owns the device, yet Dispose as written leaves it open. */
  method OwnedDeviceLeftOpen(deviceTypes: DeviceTypeRegistry) returns (bridge: Ds2482)
    ensures bridge.disposeI2cDevice && !bridge.device.disposed
  {
    var replies := [0x00, PresenceStatus];
    assert Polled(replies) && PolledStatus(replies) == PresenceStatus;
    var r := CreateDs2482_100OnBus(DefaultBusId, BaseAddress as int, deviceTypes, replies);
    bridge := r.value;
    bridge.Dispose();
  }

  /** The same bridge released with the ownership flag read as meant: the
      device it owns is closed. */
  method OwnedDeviceClosed(deviceTypes: DeviceTypeRegistry) returns (bridge: Ds2482)
    ensures bridge.disposeI2cDevice && bridge.device.disposed
  {
    var replies := [0x00, PresenceStatus];
    assert Polled(replies) && PolledStatus(replies) == PresenceStatus;
    var r := CreateDs2482_100OnBus(DefaultBusId, BaseAddress as int, deviceTypes, replies);
    bridge := r.value;
    bridge.DisposeOwned();
  }
}
