/** Firmware upload to the ATWILC3000: a chain of UART and timer callbacks on the host and the
    commands it makes the controller carry out. */
module FirmwareUpload {
  import opened Words

  const IRAM_START := 0x8000_0000
  const WORD := 0x1_0000_0000
  const FIRMWARE_CHUNK_SIZE := 4096
  const HCI_DEFAULT_BAUDRATE: u32 := 115200

  const HCI_RESET: seq<byte> := [0x01, 0x03, 0x0c, 0x00]
  const HCI_READ_LOCAL_VERSION: seq<byte> := [0x01, 0x01, 0x10, 0x00]
  const HCI_VENDOR_RESET: seq<byte> := [0x01, 0x55, 0xfc, 0x00]

  function Le32(b: seq<byte>, off: nat): int
    requires off + 4 <= |b|
  {
    (b[off] as int) + (b[off + 1] as int) * 0x100 + (b[off + 2] as int) * 0x1_0000 + (b[off + 3] as int) * 0x100_0000
  }

  function ToLe32(x: u32): (r: seq<byte>)
    ensures |r| == 4
  {
    [x % 0x100, x / 0x100 % 0x100, x / 0x1_0000 % 0x100, x / 0x100_0000]
  }

  lemma Le32RoundTrip(x: u32)
    ensures Le32(ToLe32(x), 0) == x
  {
    assert x / 0x1_0000 == x / 0x100 / 0x100;
    assert x / 0x100_0000 == x / 0x100 / 0x100 / 0x100;
  }

  function WriteCommand(address: u32, length: u32): (c: seq<byte>)
    ensures |c| == 12
  {
    [1, 0x52, 0xfc, 8] + ToLe32(address) + ToLe32(length)
  }

  function BaudrateCommand(baudrate: u32, flowcontrol: bool): (c: seq<byte>)
    ensures |c| == 9
  {
    [1, 0x53, 0xfc, 5] + ToLe32(baudrate) + [if flowcontrol then 1 else 0]
  }

  // ------------------------------------------------------------------ controller

  datatype Write = Write(address: int, data: seq<byte>)

  datatype Expected = Nothing | Bytes(address: int, length: int)

  datatype Command = Reset | ReadVersion | SetUart(baud: int, flowcontrol: bool) | Load | Reboot

  function Loads(n: nat): seq<Command> {
    if n == 0 then [] else Loads(n - 1) + [Load]
  }

  /** The controller: its memory, the write it has been told to expect, its baud rate and flow
      control, the writes and all commands it has carried out, and whether it ever got something
      other than a command or what was announced. */
  datatype Device = Device(memory: map<int, byte>, expected: Expected, baud: int, flowcontrol: bool,
                           writes: seq<Write>, commands: seq<Command>, confused: bool)

  function Stored(memory: map<int, byte>, address: int, data: seq<byte>): map<int, byte>
    decreases |data|
  {
    if data == [] then memory
    else Stored(memory, address, data[..|data| - 1])[(address + |data| - 1) % WORD := data[|data| - 1]]
  }

  datatype Reply = Reply(device: Device, answers: bool)

  /** The controller takes in one block.  A write command is answered after its bytes, a reset of
      the processor not at all. */
  function Receive(d: Device, block: seq<byte>): Reply {
    match d.expected
    case Bytes(address, length) =>
      if |block| == length then
        Reply(d.(memory := Stored(d.memory, address, block), expected := Nothing,
                 writes := d.writes + [Write(address, block)], commands := d.commands + [Load]), true)
      else
        Reply(d.(confused := true), false)
    case Nothing =>
      if |block| == 12 && block[..4] == [0x01, 0x52, 0xfc, 0x08] then
        Reply(d.(expected := Bytes(Le32(block, 4), Le32(block, 8))), false)
      else if |block| == 9 && block[..4] == [0x01, 0x53, 0xfc, 0x05] then
        var baud, flowcontrol := Le32(block, 4), block[8] != 0;
        Reply(d.(baud := baud, flowcontrol := flowcontrol, commands := d.commands + [SetUart(baud, flowcontrol)]), true)
      else if block == [0x01, 0x55, 0xfc, 0x00] then
        Reply(d.(baud := HCI_DEFAULT_BAUDRATE, flowcontrol := false, commands := d.commands + [Reboot]), false)
      else if block == [0x01, 0x03, 0x0c, 0x00] then
        Reply(d.(commands := d.commands + [Reset]), true)
      else if block == [0x01, 0x01, 0x10, 0x00] then
        Reply(d.(commands := d.commands + [ReadVersion]), true)
      else
        Reply(d.(confused := true), false)
  }

  lemma WriteCommandUnderstood(d: Device, address: u32, length: u32)
    requires d.expected == Nothing
    ensures Receive(d, WriteCommand(address, length)) == Reply(d.(expected := Bytes(address, length)), false)
  {
    Le32RoundTrip(address);
    Le32RoundTrip(length);
    var c := WriteCommand(address, length);
    assert c[..4] == [0x01, 0x52, 0xfc, 0x08];
    assert c[4..8] == ToLe32(address) && c[8..12] == ToLe32(length);
  }

  lemma BaudrateCommandUnderstood(d: Device, baudrate: u32, flowcontrol: bool)
    requires d.expected == Nothing
    ensures Receive(d, BaudrateCommand(baudrate, flowcontrol)) ==
            Reply(d.(baud := baudrate, flowcontrol := flowcontrol,
                     commands := d.commands + [SetUart(baudrate, flowcontrol)]), true)
  {
    Le32RoundTrip(baudrate);
    var c := BaudrateCommand(baudrate, flowcontrol);
    assert c[..4] == [0x01, 0x53, 0xfc, 0x05];
    assert c[4..8] == ToLe32(baudrate);
  }

  // ------------------------------------------------------------------ image and chunks

  /** Address of byte k of the image, in 32-bit arithmetic. */
  function Address(k: nat): (a: u32) {
    (IRAM_START + k) % WORD
  }

  /** Chunk i of the image and where it goes. */
  function ChunkAt(image: seq<byte>, i: nat): Write
    requires FIRMWARE_CHUNK_SIZE * i <= |image|
  {
    var start := FIRMWARE_CHUNK_SIZE * i;
    Write(Address(start), image[start..Min(|image|, start + FIRMWARE_CHUNK_SIZE)])
  }

  /** The writes are exactly the first n chunks, in order. */
  ghost predicate Tiles(image: seq<byte>, writes: seq<Write>) {
    && (|writes| > 0 ==> FIRMWARE_CHUNK_SIZE * (|writes| - 1) < |image|)
    && forall i :: 0 <= i < |writes| ==> writes[i] == ChunkAt(image, i)
  }

  function Written(memory: map<int, byte>, writes: seq<Write>): map<int, byte> {
    if writes == [] then memory
    else var w := writes[|writes| - 1]; Stored(Written(memory, writes[..|writes| - 1]), w.address, w.data)
  }

  /** The memory holds the first n bytes of the image at their addresses and is unchanged
      elsewhere. */
  ghost predicate Loaded(before: map<int, byte>, memory: map<int, byte>, image: seq<byte>, n: nat)
    requires n <= |image|
  {
    && (forall k :: 0 <= k < n ==> Address(k) in memory && memory[Address(k)] == image[k])
    && (forall a: int :: !(0 <= a < WORD && (a - IRAM_START) % WORD < n) ==>
          (a in memory <==> a in before) && (a in memory ==> memory[a] == before[a]))
  }

  lemma AddressOffset(k: nat)
    requires k < WORD
    ensures (Address(k) - IRAM_START) % WORD == k
  {
  }

  lemma LoadedByte(before: map<int, byte>, memory: map<int, byte>, image: seq<byte>, n: nat)
    requires n < |image| <= WORD && Loaded(before, memory, image, n)
    ensures Loaded(before, memory[Address(n) := image[n]], image, n + 1)
  {
    forall k | 0 <= k < n
      ensures Address(k) != Address(n)
    {
      AddressOffset(k);
      AddressOffset(n);
    }
    AddressOffset(n);
  }

  lemma StoredLast(memory: map<int, byte>, image: seq<byte>, n: nat, m: nat)
    requires n < m <= |image|
    ensures Stored(memory, Address(n), image[n..m]) ==
              Stored(memory, Address(n), image[n..m - 1])[Address(m - 1) := image[m - 1]]
  {
    assert image[n..m][..m - n - 1] == image[n..m - 1];
    assert (Address(n) + (m - n) - 1) % WORD == Address(m - 1);
  }

  lemma {:induction false} LoadedMore(before: map<int, byte>, memory: map<int, byte>, image: seq<byte>, n: nat, m: nat)
    requires n <= m <= |image| <= WORD && Loaded(before, memory, image, n)
    ensures Loaded(before, Stored(memory, Address(n), image[n..m]), image, m)
    decreases m
  {
    hide Loaded, Address;
    if n < m {
      LoadedMore(before, memory, image, n, m - 1);
      StoredLast(memory, image, n, m);
      LoadedByte(before, Stored(memory, Address(n), image[n..m - 1]), image, m - 1);
    } else {
      assert image[n..m] == [];
    }
  }

  /** Carrying out the chunks one after the other loads the image. */
  lemma {:induction false} TilesLoad(memory: map<int, byte>, image: seq<byte>, writes: seq<Write>)
    requires |image| < WORD && Tiles(image, writes)
    ensures Loaded(memory, Written(memory, writes), image, Min(|image|, FIRMWARE_CHUNK_SIZE * |writes|))
    decreases |writes|
  {
    hide Loaded;
    if writes == [] {
      LoadedNone(memory, image);
    } else {
      var rest := writes[..|writes| - 1];
      TilesLoad(memory, image, rest);
      var start := FIRMWARE_CHUNK_SIZE * |rest|;
      assert writes[|writes| - 1] == ChunkAt(image, |rest|);
      LoadedMore(memory, Written(memory, rest), image, start, Min(|image|, start + FIRMWARE_CHUNK_SIZE));
    }
  }

  lemma LoadedNone(memory: map<int, byte>, image: seq<byte>)
    ensures Loaded(memory, memory, image, 0)
  {
  }

  lemma TilesMore(image: seq<byte>, writes: seq<Write>)
    requires Tiles(image, writes) && FIRMWARE_CHUNK_SIZE * |writes| < |image|
    ensures Tiles(image, writes + [ChunkAt(image, |writes|)])
  {
  }

  lemma WrittenMore(memory: map<int, byte>, writes: seq<Write>, w: Write)
    ensures Written(memory, writes + [w]) == Stored(Written(memory, writes), w.address, w.data)
  {
    assert (writes + [w])[..|writes|] == writes;
  }

  /** Number of chunks of a whole image. */
  lemma ChunkCount(image: seq<byte>, writes: seq<Write>)
    requires Tiles(image, writes) && |image| <= FIRMWARE_CHUNK_SIZE * |writes|
    ensures |writes| == (|image| + FIRMWARE_CHUNK_SIZE - 1) / FIRMWARE_CHUNK_SIZE
  {
  }

  // ------------------------------------------------------------------ host

  datatype Callback =
    | NoCallback
    | W4CommandCompleteReset
    | W4CommandCompleteReadLocalVersionInformation
    | W4BaudrateUpdate
    | WriteMemory
    | WriteFirmware
    | WaitForResetCompleted
    | Done

  datatype Stage =
    | NotStarted | Resetting | AskingVersion | SettingBaud | Announcing | Writing
    | Rebooting | Waiting | Restoring | Finished | NullCall

  class Upload {
    const fwData: seq<byte>
    const fwBaudrate: u32
    const fwFlowcontrol: bool
    const firmwareVersion: byte       // reported by the controller, 0xff when it runs from ROM
    const canSetFlowcontrol: bool     // the UART driver has a set_flowcontrol function
    const commandBuffer: array<byte>

    var fwOffset: nat
    var flowcontrol: bool
    var blockSent: Callback
    var blockReceived: Callback
    var sending: seq<byte>            // block under way to the controller
    var receiving: bool
    var timerArmed: bool
    var hostBaud: int
    var hostFlowcontrol: bool
    var results: seq<int>             // calls of the done callback

    var device: Device
    var answered: bool                // the controller's answer has arrived
    ghost var before: map<int, byte>
    ghost var stage: Stage
    ghost var skipped: bool
    ghost var openStatus: int             // result of opening the UART driver

    constructor (fwData: seq<byte>, fwBaudrate: u32, fwFlowcontrol: bool, canSetFlowcontrol: bool,
                 firmwareVersion: byte, memory: map<int, byte>)
      requires |fwData| < WORD
      ensures Valid() && stage == NotStarted && results == [] && openStatus == 0
      ensures this.fwData == fwData && this.fwBaudrate == fwBaudrate
      ensures this.firmwareVersion == firmwareVersion
      ensures this.fwFlowcontrol == fwFlowcontrol && this.canSetFlowcontrol == canSetFlowcontrol
      ensures before == memory && fresh(commandBuffer)
    {
      this.fwData, this.fwBaudrate, this.fwFlowcontrol := fwData, fwBaudrate, fwFlowcontrol;
      this.canSetFlowcontrol, this.firmwareVersion := canSetFlowcontrol, firmwareVersion;
      commandBuffer := new byte[12];
      fwOffset, flowcontrol, sending, receiving, timerArmed := 0, false, [], false, false;
      blockSent, blockReceived, results := NoCallback, NoCallback, [];
      hostBaud, hostFlowcontrol := HCI_DEFAULT_BAUDRATE, false;
      device, answered := Device(memory, Nothing, HCI_DEFAULT_BAUDRATE, false, [], [], false), false;
      before, stage, skipped, openStatus := memory, NotStarted, false, 0;
    }

    /** Bytes of the chunks the controller has carried out. */
    ghost function Uploaded(): (n: nat)
      reads this`device
      ensures n <= |fwData|
    {
      Min(|fwData|, FIRMWARE_CHUNK_SIZE * |device.writes|)
    }

    /** A command is on its way, or its answer has arrived. */
    ghost predicate Exchange(handler: Callback, command: seq<byte>)
      reads this
    {
      && receiving && blockReceived == handler && blockSent == NoCallback && !timerArmed
      && device.expected == Nothing && answered == (sending == [])
      && (sending == [] || sending == command)
    }

    ghost predicate Quiet()
      reads this
    {
      !receiving && !answered && device.expected == Nothing
    }

    ghost function UploadBaud(): int {
      if fwBaudrate != 0 then fwBaudrate else HCI_DEFAULT_BAUDRATE
    }

    /** The commands that prepare the writes. */
    ghost function Prepared(): seq<Command> {
      [Reset, ReadVersion] + if fwBaudrate != 0 then [SetUart(fwBaudrate, false)] else []
    }

    /** The commands up to the chunks carried out so far. */
    ghost function Told(): seq<Command>
      reads this`device
    {
      Prepared() + Loads(|device.writes|)
    }

    ghost predicate Plain(commands: seq<Command>)
      reads this`device, this`hostFlowcontrol
    {
      device.commands == commands && !device.flowcontrol && !hostFlowcontrol
    }

    /** The controller has been told the final rate and flow control. */
    ghost predicate Configured(commands: seq<Command>)
      reads this`device
    {
      && device.commands == commands + [SetUart(fwBaudrate, fwFlowcontrol)]
      && device.flowcontrol == fwFlowcontrol
    }

    // What is under way in each stage of the chain.

    ghost predicate InNotStarted()
      reads this
    {
      Quiet() && sending == [] && !timerArmed && device.writes == []
      && hostBaud == device.baud == HCI_DEFAULT_BAUDRATE && blockSent == NoCallback && Plain([])
    }

    ghost predicate InResetting()
      reads this
    {
      Exchange(W4CommandCompleteReset, HCI_RESET) && device.writes == []
      && hostBaud == device.baud == HCI_DEFAULT_BAUDRATE && Plain(if answered then [Reset] else [])
    }

    ghost predicate InAskingVersion()
      reads this
    {
      Exchange(W4CommandCompleteReadLocalVersionInformation, HCI_READ_LOCAL_VERSION)
      && device.writes == [] && hostBaud == device.baud == HCI_DEFAULT_BAUDRATE
      && Plain(if answered then [Reset, ReadVersion] else [Reset])
    }

    ghost predicate InSettingBaud()
      reads this
    {
      Exchange(W4BaudrateUpdate, BaudrateCommand(fwBaudrate, false)) && device.writes == []
      && fwBaudrate != 0 && hostBaud == HCI_DEFAULT_BAUDRATE
      && Plain(if answered then Prepared() else [Reset, ReadVersion])
      && device.baud == (if answered then fwBaudrate else HCI_DEFAULT_BAUDRATE)
    }

    ghost predicate InAnnouncing()
      reads this
    {
      Quiet() && !timerArmed && blockSent == WriteFirmware && hostBaud == device.baud == UploadBaud()
      && Plain(Told())
      && fwOffset < |fwData| && fwOffset == FIRMWARE_CHUNK_SIZE * |device.writes|
      && sending == WriteCommand(Address(fwOffset), Min(|fwData| - fwOffset, FIRMWARE_CHUNK_SIZE))
    }

    ghost predicate InWriting()
      reads this
    {
      receiving && blockReceived == WriteMemory && blockSent == NoCallback && !timerArmed
      && hostBaud == device.baud == UploadBaud() && answered == (sending == []) && Plain(Told())
      && (if answered then fwOffset == Uploaded() && device.expected == Nothing
          else
            && Uploaded() == FIRMWARE_CHUNK_SIZE * |device.writes| < fwOffset
            && fwOffset == Min(|fwData|, Uploaded() + FIRMWARE_CHUNK_SIZE)
            && sending == fwData[Uploaded()..fwOffset]
            && device.expected == Bytes(Address(Uploaded()), |sending|))
    }

    ghost predicate InRebooting()
      reads this
    {
      Quiet() && !timerArmed && blockSent == WaitForResetCompleted && sending == HCI_VENDOR_RESET
      && Uploaded() == |fwData| && hostBaud == device.baud == UploadBaud() && Plain(Told())
    }

    ghost predicate InWaiting()
      reads this
    {
      Quiet() && timerArmed && blockSent == NoCallback && sending == []
      && Uploaded() == |fwData| && hostBaud == UploadBaud() && device.baud == HCI_DEFAULT_BAUDRATE
      && Plain(Told() + [Reboot])
    }

    ghost predicate InRestoring()
      reads this
    {
      Exchange(Done, BaudrateCommand(fwBaudrate, fwFlowcontrol)) && flowcontrol == fwFlowcontrol
      && (flowcontrol && !canSetFlowcontrol ==> fwBaudrate != HCI_DEFAULT_BAUDRATE)
      && Uploaded() == |fwData| && hostBaud == HCI_DEFAULT_BAUDRATE && !hostFlowcontrol
      && ((fwFlowcontrol && canSetFlowcontrol) || fwBaudrate != HCI_DEFAULT_BAUDRATE)
      && device.baud == (if answered then fwBaudrate else HCI_DEFAULT_BAUDRATE)
      && (if answered then Configured(Told() + [Reboot]) else Plain(Told() + [Reboot]))
    }

    ghost predicate InFinished()
      reads this
    {
      Idle() && (if skipped then
        device.writes == [] && Plain(if openStatus != 0 then [] else [Reset, ReadVersion])
      else
        && Uploaded() == |fwData| && hostBaud == UploadBaud() && device.baud == fwBaudrate
        && (if (fwFlowcontrol && canSetFlowcontrol) || fwBaudrate != HCI_DEFAULT_BAUDRATE
            then Configured(Told() + [Reboot])
            else device.commands == Told() + [Reboot] && !device.flowcontrol)
        && hostFlowcontrol == (fwFlowcontrol && canSetFlowcontrol)
        && !(fwFlowcontrol && !canSetFlowcontrol && fwBaudrate != HCI_DEFAULT_BAUDRATE))
    }

    ghost predicate InNullCall()
      reads this
    {
      Idle() && Uploaded() == |fwData| && fwFlowcontrol && !canSetFlowcontrol && fwBaudrate != HCI_DEFAULT_BAUDRATE
      && Configured(Told() + [Reboot]) && !hostFlowcontrol
    }

    ghost predicate InStage()
      reads this
    {
      match stage
      case NotStarted => InNotStarted()
      case Resetting => InResetting()
      case AskingVersion => InAskingVersion()
      case SettingBaud => InSettingBaud()
      case Announcing => InAnnouncing()
      case Writing => InWriting()
      case Rebooting => InRebooting()
      case Waiting => InWaiting()
      case Restoring => InRestoring()
      case Finished => InFinished()
      case NullCall => InNullCall()
    }

    ghost predicate Idle()
      reads this
    {
      sending == [] && !(receiving && answered) && !timerArmed
    }

    /** The controller got what was announced, the chunks in order, and stored just them. */
    ghost predicate Faithful()
      reads this`device, this`before
    {
      !device.confused && Tiles(fwData, device.writes) && device.memory == Written(before, device.writes)
    }

    /** Kept throughout: chunks arrive in order, and the done callback is called at the end only. */
    ghost predicate Base()
      reads this
    {
      && commandBuffer.Length == 12 && |fwData| < WORD
      && Faithful()
      && results == (if stage == Finished then [openStatus] else [])
      && (stage == Resetting || stage == AskingVersion || stage == SettingBaud ==> fwOffset == 0 && !flowcontrol)
      && (stage == Announcing || stage == Writing || stage == Rebooting || stage == Waiting ==> !flowcontrol)
      && fwOffset <= |fwData|
      && (if stage == NotStarted || stage == Resetting || stage == AskingVersion then !skipped && openStatus == 0
          else skipped == (openStatus != 0 || firmwareVersion != 0xff))
      && (skipped ==> stage == Finished)
    }

    ghost predicate Valid()
      reads this
    {
      Base() && InStage()
    }

    method SendBlock(data: seq<byte>)
      modifies this`sending
      ensures sending == data
    {
      sending := data;
    }

    method ReceiveBlock()
      modifies this`receiving
      ensures receiving
    {
      receiving := true;
    }

    method StoreLittleEndian32(pos: nat, value: u32)
      requires pos + 4 <= commandBuffer.Length
      modifies commandBuffer
      ensures commandBuffer[..] == old(commandBuffer[..pos]) + ToLe32(value) + old(commandBuffer[pos + 4..])
    {
      commandBuffer[pos] := value % 0x100;
      commandBuffer[pos + 1] := value / 0x100 % 0x100;
      commandBuffer[pos + 2] := value / 0x1_0000 % 0x100;
      commandBuffer[pos + 3] := value / 0x100_0000;
    }

    method SetBaudrateCommand(baudrate: u32)
      requires commandBuffer.Length == 12
      modifies commandBuffer
      ensures commandBuffer[..9] == BaudrateCommand(baudrate, flowcontrol)
    {
      commandBuffer[0] := 1;
      commandBuffer[1] := 0x53;
      commandBuffer[2] := 0xfc;
      commandBuffer[3] := 5;
      StoreLittleEndian32(4, baudrate);
      commandBuffer[8] := if flowcontrol then 1 else 0;
    }

    method SendBaudrateCommand()
      requires commandBuffer.Length == 12
      modifies this`sending, commandBuffer
      ensures sending == BaudrateCommand(fwBaudrate, flowcontrol)
    {
      SetBaudrateCommand(fwBaudrate);
      SendBlock(commandBuffer[..9]);
    }

    method SetWriteCommand(address: u32, length: u32)
      requires commandBuffer.Length == 12
      modifies commandBuffer
      ensures commandBuffer[..] == WriteCommand(address, length)
    {
      commandBuffer[0] := 1;
      commandBuffer[1] := 0x52;
      commandBuffer[2] := 0xfc;
      commandBuffer[3] := 8;
      StoreLittleEndian32(4, address);
      StoreLittleEndian32(8, length);
    }

    /** Start the upload; a driver that cannot be opened ends it with its error. */
    method DownloadFirmware(openResult: int)
      requires Valid() && stage == NotStarted && openStatus == 0
      modifies this`fwOffset, this`flowcontrol, this`blockReceived, this`receiving, this`sending, this`results,
               this`stage, this`skipped, this`openStatus
      ensures Valid() && stage == (if openResult == 0 then Resetting else Finished)
      ensures openStatus == openResult && (stage == Finished ==> skipped)
    {
      hide Tiles, Written, WriteCommand, BaudrateCommand;
      fwOffset := 0;
      openStatus := openResult;
      if openResult != 0 {
        results := results + [openResult];
        stage, skipped := Finished, true;
        return;
      }
      Start();
    }

    method Start()
      requires Base() && InNotStarted() && stage == NotStarted && fwOffset == 0
      modifies this`flowcontrol, this`blockReceived, this`receiving, this`sending, this`stage
      ensures Valid() && stage == Resetting
    {
      hide Upload.Faithful, WriteCommand, BaudrateCommand, Upload.Uploaded;
      flowcontrol := false;
      blockReceived := W4CommandCompleteReset;
      ReceiveBlock();
      SendBlock(HCI_RESET);
      stage := Resetting;
    }

    method AfterReset()
      requires Base() && stage == Resetting && Quiet() && sending == [] && !timerArmed && blockSent == NoCallback
      requires Plain([Reset])
      requires device.writes == [] && hostBaud == device.baud == HCI_DEFAULT_BAUDRATE
      modifies this`blockReceived, this`receiving, this`sending, this`stage
      ensures Valid() && stage == AskingVersion
    {
      hide Upload.Faithful, WriteCommand, BaudrateCommand, Upload.Uploaded;
      ReceiveBlock();
      blockReceived := W4CommandCompleteReadLocalVersionInformation;
      SendBlock(HCI_READ_LOCAL_VERSION);
      stage := AskingVersion;
    }

    method UpdateUartParams()
      requires Base() && stage == AskingVersion && Quiet() && sending == [] && !timerArmed && blockSent == NoCallback
      requires Plain([Reset, ReadVersion])
      requires device.writes == [] && hostBaud == device.baud == HCI_DEFAULT_BAUDRATE
      requires fwBaudrate != 0 && firmwareVersion == 0xff
      modifies this`blockReceived, this`receiving, this`sending, this`stage, commandBuffer
      ensures Valid() && stage == SettingBaud
    {
      hide Upload.Faithful, WriteCommand, BaudrateCommand, Upload.Uploaded;
      ReceiveBlock();
      blockReceived := W4BaudrateUpdate;
      SendBaudrateCommand();
      stage := SettingBaud;
    }

    /** A controller that already runs its firmware is left alone. */
    method AfterVersion()
      requires Base() && stage == AskingVersion && Quiet() && sending == [] && !timerArmed && blockSent == NoCallback
      requires Plain([Reset, ReadVersion])
      requires device.writes == [] && hostBaud == device.baud == HCI_DEFAULT_BAUDRATE
      modifies this`blockReceived, this`blockSent, this`receiving, this`sending, this`stage, this`results,
               this`skipped, commandBuffer
      ensures Valid()
      ensures stage == if firmwareVersion != 0xff then Finished
                       else if fwBaudrate != 0 then SettingBaud
                       else if fwData == [] then Rebooting else Announcing
    {
      hide Tiles, Written, WriteCommand, BaudrateCommand;
      if firmwareVersion != 0xff {
        results := results + [0];
        stage, skipped := Finished, true;
        return;
      }
      if fwBaudrate != 0 {
        UpdateUartParams();
      } else {
        WriteMemoryStep();
      }
    }

    method AfterBaudrateUpdate()
      requires Base() && stage == SettingBaud && Quiet() && sending == [] && !timerArmed && blockSent == NoCallback
      requires device.writes == [] && fwBaudrate != 0 && device.baud == fwBaudrate && Plain(Prepared())
      modifies this`hostBaud, this`blockSent, this`sending, this`stage, commandBuffer
      ensures Valid()
      ensures stage == if fwData == [] then Rebooting else Announcing
    {
      hide Tiles, Written, WriteCommand, BaudrateCommand;
      hostBaud := fwBaudrate;
      WriteMemoryStep();
    }

    /** Announce the next chunk, or reboot the controller when there is none left. */
    method WriteMemoryStep()
      requires Base() && (stage == AskingVersion || stage == SettingBaud || stage == Writing)
      requires Quiet() && sending == [] && !timerArmed && blockSent == NoCallback
      requires fwOffset == Uploaded() && hostBaud == device.baud == UploadBaud() && firmwareVersion == 0xff
      requires Plain(Told())
      modifies this`blockSent, this`sending, this`stage, commandBuffer
      ensures Valid()
      ensures stage == if fwOffset < |fwData| then Announcing else Rebooting
    {
      hide Upload.Faithful, WriteCommand, BaudrateCommand;
      if fwOffset >= |fwData| {
        VendorSpecificReset();
        return;
      }
      var bytesToWrite := Min(|fwData| - fwOffset, FIRMWARE_CHUNK_SIZE);
      SetWriteCommand((IRAM_START + fwOffset) % WORD, bytesToWrite);
      blockSent := WriteFirmware;
      SendBlock(commandBuffer[..]);
      stage := Announcing;
    }

    method VendorSpecificReset()
      requires Base() && (stage == AskingVersion || stage == SettingBaud || stage == Writing)
      requires Quiet() && sending == [] && !timerArmed && Uploaded() == |fwData|
      requires hostBaud == device.baud == UploadBaud() && firmwareVersion == 0xff && Plain(Told())
      modifies this`blockSent, this`sending, this`stage
      ensures Valid() && stage == Rebooting
    {
      hide Upload.Faithful, WriteCommand, BaudrateCommand, Upload.Uploaded;
      blockSent := WaitForResetCompleted;
      SendBlock(HCI_VENDOR_RESET);
      stage := Rebooting;
    }

    /** The announcement has been sent: send the bytes. */
    method WriteFirmwareStep()
      requires Base() && stage == Announcing && !receiving && !answered
      requires device.expected == Bytes(Address(fwOffset), Min(|fwData| - fwOffset, FIRMWARE_CHUNK_SIZE))
      requires sending == [] && !timerArmed && hostBaud == device.baud == UploadBaud() && Plain(Told())
      requires fwOffset < |fwData| && fwOffset == FIRMWARE_CHUNK_SIZE * |device.writes|
      modifies this`fwOffset, this`blockSent, this`blockReceived, this`receiving, this`sending, this`stage
      ensures Valid() && stage == Writing && !answered && fwOffset > old(fwOffset)
    {
      hide Upload.Faithful, WriteCommand, BaudrateCommand;
      blockReceived := WriteMemory;
      ReceiveBlock();
      var bytesToWrite := Min(|fwData| - fwOffset, FIRMWARE_CHUNK_SIZE);
      var offset := fwOffset;
      fwOffset := fwOffset + bytesToWrite;
      blockSent := NoCallback;
      SendBlock(fwData[offset..offset + bytesToWrite]);
      stage := Writing;
    }

    method AfterVendorReset()
      requires Base() && stage == Rebooting && Quiet() && sending == [] && !timerArmed
      requires Uploaded() == |fwData| && hostBaud == UploadBaud() && device.baud == HCI_DEFAULT_BAUDRATE
      requires Plain(Told() + [Reboot])
      modifies this`blockSent, this`timerArmed, this`stage
      ensures Valid() && stage == Waiting
    {
      hide Upload.Faithful, WriteCommand, BaudrateCommand, Upload.Uploaded;
      blockSent := NoCallback;
      timerArmed := true;
      stage := Waiting;
    }

    /** The controller has rebooted at its default rate: set rate and flow control again. */
    method ConfigureUart()
      requires Base() && stage == Waiting && Quiet() && sending == [] && !timerArmed && blockSent == NoCallback
      requires Uploaded() == |fwData| && hostBaud == UploadBaud() && device.baud == HCI_DEFAULT_BAUDRATE
      requires Plain(Told() + [Reboot])
      modifies this`hostBaud, this`hostFlowcontrol, this`flowcontrol, this`blockReceived, this`receiving,
               this`sending, this`results,
               this`stage, commandBuffer
      ensures Valid() && (stage == Restoring || stage == Finished)
    {
      hide Tiles, Written, WriteCommand, BaudrateCommand;
      if fwBaudrate != 0 {
        hostBaud := HCI_DEFAULT_BAUDRATE;
      }
      if (fwFlowcontrol && canSetFlowcontrol) || fwBaudrate != HCI_DEFAULT_BAUDRATE {
        RestoreUart();
      } else {
        DoneStep();
      }
    }

    method RestoreUart()
      requires Base() && stage == Waiting && Quiet() && sending == [] && !timerArmed && blockSent == NoCallback
      requires Uploaded() == |fwData| && hostBaud == device.baud == HCI_DEFAULT_BAUDRATE
      requires (fwFlowcontrol && canSetFlowcontrol) || fwBaudrate != HCI_DEFAULT_BAUDRATE
      requires Plain(Told() + [Reboot])
      modifies this`flowcontrol, this`blockReceived, this`receiving, this`sending, this`stage, commandBuffer
      ensures Valid() && stage == Restoring
    {
      hide Upload.Faithful, WriteCommand, BaudrateCommand, Upload.Uploaded;
      flowcontrol := fwFlowcontrol;
      blockReceived := Done;
      ReceiveBlock();
      SendBaudrateCommand();
      stage := Restoring;
    }

    /** The end of the chain.  With flow control asked for and no driver function to set it, the
        host calls through a null pointer instead. */
    method DoneStep()
      requires Base() && (stage == Waiting || stage == Restoring) && Quiet() && sending == [] && !timerArmed
      requires Uploaded() == |fwData| && hostBaud == HCI_DEFAULT_BAUDRATE && device.baud == fwBaudrate
      requires flowcontrol ==> fwFlowcontrol && (canSetFlowcontrol || fwBaudrate != HCI_DEFAULT_BAUDRATE)
      requires fwFlowcontrol && !flowcontrol ==> !canSetFlowcontrol && fwBaudrate == HCI_DEFAULT_BAUDRATE
      requires if (fwFlowcontrol && canSetFlowcontrol) || fwBaudrate != HCI_DEFAULT_BAUDRATE
               then Configured(Told() + [Reboot]) else Plain(Told() + [Reboot])
      requires !hostFlowcontrol
      modifies this`hostBaud, this`hostFlowcontrol, this`results, this`stage
      ensures Valid()
      ensures stage == if fwFlowcontrol && !canSetFlowcontrol && fwBaudrate != HCI_DEFAULT_BAUDRATE then NullCall
                       else Finished
    {
      hide Upload.Faithful, WriteCommand, BaudrateCommand, Upload.Uploaded;
      if flowcontrol {
        if !canSetFlowcontrol {
          stage := NullCall;
          return;
        }
        hostFlowcontrol := true;
      }
      if fwBaudrate != 0 {
        hostBaud := fwBaudrate;
      }
      results := results + [0];
      stage := Finished;
    }

    /** The block under way has reached the controller, garbled if the rates differ. */
    method Deliver()
      requires sending != []
      modifies this`device, this`answered, this`sending
      ensures Reply(device, answered) ==
              if hostBaud == old(device.baud) then Receive(old(device), old(sending))
              else Reply(old(device).(confused := true), false)
      ensures sending == []
    {
      var r := if hostBaud == device.baud then Receive(device, sending) else Reply(device.(confused := true), false);
      device := r.device;
      answered := r.answers;
      sending := [];
    }

    method AnnouncementSent()
      requires Valid() && stage == Announcing
      modifies this`device, this`answered, this`fwOffset, this`blockSent, this`blockReceived,
               this`receiving, this`sending, this`stage
      ensures Valid() && stage == Writing && fwOffset > old(fwOffset)
    {
      hide Tiles, Written, WriteCommand, BaudrateCommand, Receive;
      WriteCommandUnderstood(device, Address(fwOffset), Min(|fwData| - fwOffset, FIRMWARE_CHUNK_SIZE));
      Deliver();
      WriteFirmwareStep();
    }

    method VendorResetSent()
      requires Valid() && stage == Rebooting
      modifies this`device, this`answered, this`sending, this`blockSent, this`timerArmed, this`stage
      ensures Valid() && stage == Waiting
    {
      hide Tiles, Written, WriteCommand, BaudrateCommand;
      Deliver();
      AfterVendorReset();
    }

    method ChunkSent()
      requires Valid() && stage == Writing && !answered
      modifies this`device, this`answered, this`sending
      ensures Valid() && answered
    {
      hide Tiles, Written, WriteCommand, BaudrateCommand;
      TilesMore(fwData, device.writes);
      WrittenMore(before, device.writes, ChunkAt(fwData, |device.writes|));
      ghost var writes := device.writes;
      Deliver();
      assert device.writes == writes + [ChunkAt(fwData, |writes|)];
    }

    method QueryArrived()
      requires Valid() && (stage == Resetting || stage == AskingVersion) && sending != []
      modifies this`device, this`answered, this`sending
      ensures Valid() && answered
    {
      hide Tiles, Written, WriteCommand, BaudrateCommand;
      Deliver();
    }

    method BaudrateArrived()
      requires Valid() && (stage == SettingBaud || stage == Restoring) && sending != []
      modifies this`device, this`answered, this`sending
      ensures Valid() && answered
    {
      hide Tiles, Written, WriteCommand, BaudrateCommand, Receive;
      BaudrateCommandUnderstood(device, fwBaudrate, stage == Restoring && fwFlowcontrol);
      Deliver();
    }

    /** The UART driver reports the block as sent. */
    method BlockSent()
      requires Valid() && sending != []
      modifies this`device, this`answered, this`fwOffset, this`blockSent, this`blockReceived,
               this`receiving, this`sending, this`timerArmed, this`stage
      ensures Valid() && Rank() < old(Rank())
    {
      hide Upload.Faithful, WriteCommand, BaudrateCommand;
      if blockSent == WriteFirmware {
        AnnouncementSent();
      } else if blockSent == WaitForResetCompleted {
        VendorResetSent();
      } else if device.expected.Bytes? {
        ChunkSent();
      } else if |sending| == 9 {
        BaudrateArrived();
      } else {
        QueryArrived();
      }
    }

    method QueryAnswered()
      requires Valid() && answered && (stage == Resetting || stage == AskingVersion)
      modifies this`answered, this`hostBaud, this`hostFlowcontrol, this`blockSent, this`blockReceived, this`receiving,
               this`sending, this`results, this`skipped, this`stage, commandBuffer
      ensures Valid() && Rank() < old(Rank())
    {
      hide Upload.Faithful, WriteCommand, BaudrateCommand;
      receiving, answered := false, false;
      if blockReceived == W4CommandCompleteReset {
        AfterReset();
      } else {
        AfterVersion();
      }
    }

    method ChunkAnswered()
      requires Valid() && answered && stage == Writing
      modifies this`answered, this`blockSent, this`receiving, this`sending, this`stage, commandBuffer
      ensures Valid() && Rank() < old(Rank())
    {
      hide Upload.Faithful, WriteCommand, BaudrateCommand;
      receiving, answered := false, false;
      WriteMemoryStep();
    }

    method BaudrateAnswered()
      requires Valid() && answered && (stage == SettingBaud || stage == Restoring)
      modifies this`answered, this`hostBaud, this`hostFlowcontrol, this`blockSent, this`receiving,
               this`sending, this`results,
               this`stage, commandBuffer
      ensures Valid() && Rank() < old(Rank())
    {
      hide Upload.Faithful, WriteCommand, BaudrateCommand;
      receiving, answered := false, false;
      if blockReceived == W4BaudrateUpdate {
        AfterBaudrateUpdate();
      } else {
        DoneStep();
      }
    }

    /** The UART driver reports the controller's answer. */
    method BlockReceived()
      requires Valid() && receiving && answered
      modifies this`answered, this`fwOffset, this`hostBaud, this`hostFlowcontrol, this`blockSent,
               this`blockReceived, this`receiving,
               this`sending, this`results, this`skipped, this`stage, commandBuffer
      ensures Valid() && Rank() < old(Rank())
    {
      hide Upload.Base, Upload.Rank, WriteCommand, BaudrateCommand;
      if blockReceived == WriteMemory {
        ChunkAnswered();
      } else if blockReceived == W4BaudrateUpdate || blockReceived == Done {
        BaudrateAnswered();
      } else {
        QueryAnswered();
      }
    }

    method TimerFired()
      requires Valid() && timerArmed
      modifies this`timerArmed, this`hostBaud, this`hostFlowcontrol, this`flowcontrol,
               this`blockReceived, this`receiving, this`sending,
               this`results, this`stage, commandBuffer
      ensures Valid() && Rank() < old(Rank())
    {
      hide Tiles, Written, WriteCommand, BaudrateCommand;
      timerArmed := false;
      ConfigureUart();
    }

    /** Bound on the number of events still to come. */
    ghost function Rank(): nat
      requires fwOffset <= |fwData|
      reads this`stage, this`sending, this`fwOffset
    {
      var s := if sending == [] then 0 else 1;
      match stage
      case NotStarted => 3 * |fwData| + 20
      case Resetting => 3 * |fwData| + 18 + s
      case AskingVersion => 3 * |fwData| + 16 + s
      case SettingBaud => 3 * |fwData| + 14 + s
      case Announcing => 3 * (|fwData| - fwOffset) + 10
      case Writing => 3 * (|fwData| - fwOffset) + 11 + s
      case Rebooting => 8
      case Waiting => 6
      case Restoring => 4 + s
      case Finished => 0
      case NullCall => 0
    }

    /** A whole upload: events are handled until none is left, which happens.  Unless it is
        skipped, the controller then holds the image, delivered in the fewest chunks, and nothing
        else has changed; the done callback has been called exactly once, except after a call
        through a null pointer; and both sides use the same baud rate exactly if one was given. */
    method Run(openResult: int)
      requires Valid() && stage == NotStarted && openStatus == 0
      modifies this, commandBuffer
      ensures Valid()
      ensures openResult != 0 ==> results == [openResult] && device.writes == [] && device.commands == []
      ensures openResult == 0 && firmwareVersion != 0xff ==>
        results == [0] && device.writes == [] && device.commands == [Reset, ReadVersion]
      ensures openResult == 0 && firmwareVersion == 0xff ==>
        && Loaded(old(before), device.memory, fwData, |fwData|)
        && Tiles(fwData, device.writes) && !device.confused
        && |device.writes| == (|fwData| + 4095) / 4096
        && (results == [0] <==> !(fwFlowcontrol && !canSetFlowcontrol && fwBaudrate != HCI_DEFAULT_BAUDRATE))
        && (stage == if results == [0] then Finished else NullCall) && (results == [0] || results == [])
        && (results == [0] ==> (hostBaud == device.baud <==> fwBaudrate != 0))
        && (results == [0] ==> device.flowcontrol == hostFlowcontrol == (fwFlowcontrol && canSetFlowcontrol))
        && device.commands == [Reset, ReadVersion] + (if fwBaudrate != 0 then [SetUart(fwBaudrate, false)] else [])
             + Loads(|device.writes|) + [Reboot]
             + (if (fwFlowcontrol && canSetFlowcontrol) || fwBaudrate != HCI_DEFAULT_BAUDRATE
                then [SetUart(fwBaudrate, fwFlowcontrol)] else [])
    {
      hide Written, WriteCommand, BaudrateCommand, Loaded, Tiles;
      DownloadFirmware(openResult);
      while sending != [] || (receiving && answered) || timerArmed
        invariant Valid() && openStatus == openResult && before == old(before)
        invariant Rank() < 3 * |fwData| + 20
        decreases Rank()
      {
        if sending != [] {
          BlockSent();
        } else if timerArmed {
          TimerFired();
        } else {
          BlockReceived();
        }
      }
      if !skipped {
        TilesLoad(before, fwData, device.writes);
        ChunkCount(fwData, device.writes);
      }
    }
  }

  /** The call through a null pointer is reachable, with an empty image at that. */
  method NullCallReachable() returns (u: Upload)
    ensures fresh(u) && u.Valid() && u.fwBaudrate == 9600 && u.fwFlowcontrol && !u.canSetFlowcontrol
    ensures u.stage == NullCall && u.results == []
  {
    u := new Upload([], 9600, true, false, 0xff, map[]);
    u.Run(0);
  }
}
