/** Writing an image through a serial boot loader, skipping what an erased flash already holds. */
module Bsl {
  import opened Basics

  const TRSF_SIZE := 248
  const SIZE_512K := 524288
  const BACKDOOR_BYTE := 524247

  datatype Command = Download(addr: nat, size: nat) | SendData(data: seq<byte>)

  /** How programming changes one cell; an erased cell takes the new value. */
  type Program = (byte, byte) -> byte

  ghost predicate TakesOnErased(p: Program) {
    forall b: byte :: p(0xFF, b) == b
  }

  /** The device: its flash, and where the next data packet goes. */
  datatype Device = Device(cells: seq<byte>, at: nat)

  function Programmed(p: Program, cells: seq<byte>, at: nat, data: seq<byte>): (r: seq<byte>)
    ensures |r| == |cells|
  {
    seq(|cells|, i requires 0 <= i < |cells| => if at <= i < at + |data| then p(cells[i], data[i - at]) else cells[i])
  }

  function Exec(p: Program, d: Device, c: Command): Device {
    match c
    case Download(addr, _) => d.(at := addr)
    case SendData(data) => Device(Programmed(p, d.cells, d.at, data), d.at + |data|)
  }

  function ExecAll(p: Program, d: Device, cs: seq<Command>): Device
    decreases |cs|
  {
    if cs == [] then d else ExecAll(p, Exec(p, d, cs[0]), cs[1..])
  }

  function EmptyPacket(): (e: seq<byte>)
    ensures |e| == TRSF_SIZE
  {
    seq(TRSF_SIZE, _ => 0xFF)
  }

  /** The commands for the rest of the image; `placed` says whether the device already points
      at `addr`. */
  function Script(addr: nat, data: seq<byte>, placed: bool): seq<Command>
    decreases |data|
  {
    if |data| <= TRSF_SIZE then [Download(addr, |data|), SendData(data)]
    else if data[..TRSF_SIZE] == EmptyPacket() then Script(addr + TRSF_SIZE, data[TRSF_SIZE..], false)
    else
      (if placed then [] else [Download(addr, |data|)]) + [SendData(data[..TRSF_SIZE])]
      + Script(addr + TRSF_SIZE, data[TRSF_SIZE..], true)
  }

  /** The first packet of a longer image, next to the commands before it. */
  lemma NextPacket(done: seq<Command>, addr: nat, data: seq<byte>, placed: bool)
    requires |data| > TRSF_SIZE
    ensures data[..TRSF_SIZE] == EmptyPacket() ==>
      done + Script(addr, data, placed) == done + Script(addr + TRSF_SIZE, data[TRSF_SIZE..], false)
    ensures data[..TRSF_SIZE] != EmptyPacket() ==>
      done + Script(addr, data, placed)
      == done + (if placed then [] else [Download(addr, |data|)]) + [SendData(data[..TRSF_SIZE])]
        + Script(addr + TRSF_SIZE, data[TRSF_SIZE..], true)
  {
  }

  ghost predicate Erased(cells: seq<byte>, addr: nat, len: nat) {
    addr + len <= |cells| && forall i :: addr <= i < addr + len ==> cells[i] == 0xFF
  }

  /** The flash with the image in place. */
  function Burnt(cells: seq<byte>, addr: nat, data: seq<byte>): seq<byte>
    requires addr + |data| <= |cells|
  {
    cells[..addr] + data + cells[addr + |data|..]
  }

  lemma {:induction false} ExecConcat(p: Program, d: Device, a: seq<Command>, b: seq<Command>)
    ensures ExecAll(p, d, a + b) == ExecAll(p, ExecAll(p, d, a), b)
    decreases |a|
  {
    if a == [] {
      assert a + b == b;
    } else {
      assert (a + b)[1..] == a[1..] + b;
      ExecConcat(p, Exec(p, d, a[0]), a[1..], b);
    }
  }

  lemma SendBurns(p: Program, cells: seq<byte>, addr: nat, data: seq<byte>)
    requires TakesOnErased(p) && Erased(cells, addr, |data|)
    ensures Programmed(p, cells, addr, data) == Burnt(cells, addr, data)
  {
  }

  /** A packet of 0xFF is burnt already when the flash is erased. */
  lemma EmptyBurnt(cells: seq<byte>, addr: nat)
    requires Erased(cells, addr, TRSF_SIZE)
    ensures Burnt(cells, addr, EmptyPacket()) == cells
  {
  }

  /** Burning a first packet leaves the rest erased, and the image whole in the end. */
  lemma BurntTwice(cells: seq<byte>, addr: nat, data: seq<byte>)
    requires Erased(cells, addr, |data|) && |data| > TRSF_SIZE
    ensures var half := Burnt(cells, addr, data[..TRSF_SIZE]);
      && |half| == |cells|
      && Erased(half, addr + TRSF_SIZE, |data| - TRSF_SIZE)
      && Burnt(half, addr + TRSF_SIZE, data[TRSF_SIZE..]) == Burnt(cells, addr, data)
  {
  }

  /** Skipping preserves meaning: whatever the image and wherever it goes, the commands leave
      an erased flash with exactly the image in place and everything else as it was. */
  lemma {:induction false} ScriptBurns(p: Program, d: Device, addr: nat, data: seq<byte>, placed: bool)
    requires TakesOnErased(p) && Erased(d.cells, addr, |data|) && (placed ==> d.at == addr)
    ensures ExecAll(p, d, Script(addr, data, placed)).cells == Burnt(d.cells, addr, data)
    decreases |data|
  {
    if |data| <= TRSF_SIZE {
      LastPacket(p, d, addr, data);
    } else {
      var packet, rest := data[..TRSF_SIZE], data[TRSF_SIZE..];
      BurntTwice(d.cells, addr, data);
      if packet == EmptyPacket() {
        EmptyBurnt(d.cells, addr);
        ScriptBurns(p, d, addr + TRSF_SIZE, rest, false);
      } else {
        var first := (if placed then [] else [Download(addr, |data|)]) + [SendData(packet)];
        FirstPacket(p, d, addr, packet, |data|, placed);
        ExecConcat(p, d, first, Script(addr + TRSF_SIZE, rest, true));
        ScriptBurns(p, ExecAll(p, d, first), addr + TRSF_SIZE, rest, true);
      }
    }
  }

  lemma FirstPacket(p: Program, d: Device, addr: nat, packet: seq<byte>, size: nat, placed: bool)
    requires TakesOnErased(p) && Erased(d.cells, addr, |packet|) && (placed ==> d.at == addr)
    ensures var first := (if placed then [] else [Download(addr, size)]) + [SendData(packet)];
      ExecAll(p, d, first) == Device(Burnt(d.cells, addr, packet), addr + |packet|)
  {
    SendBurns(p, d.cells, addr, packet);
    FirstSent(p, d, addr, packet, size, placed);
  }

  lemma OneCommand(p: Program, d: Device, c: Command)
    ensures ExecAll(p, d, [c]) == Exec(p, d, c)
  {
  }

  lemma LastPacket(p: Program, d: Device, addr: nat, data: seq<byte>)
    requires TakesOnErased(p) && Erased(d.cells, addr, |data|)
    ensures ExecAll(p, d, [Download(addr, |data|), SendData(data)]).cells == Burnt(d.cells, addr, data)
  {
    FirstPacket(p, d, addr, data, |data|, false);
    assert [Download(addr, |data|)] + [SendData(data)] == [Download(addr, |data|), SendData(data)];
  }

  /** The tool without its optimisation. */
  function PlainScript(addr: nat, data: seq<byte>): seq<Command> {
    [Download(addr, |data|), SendData(data)]
  }

  /** On an erased flash, skipping changes nothing. */
  lemma SkippingHarmless(p: Program, d: Device, addr: nat, data: seq<byte>)
    requires TakesOnErased(p) && Erased(d.cells, addr, |data|)
    ensures ExecAll(p, d, Script(addr, data, false)).cells == ExecAll(p, d, PlainScript(addr, data)).cells
  {
    ScriptBurns(p, d, addr, data, false);
    LastPacket(p, d, addr, data);
  }

  /** On any flash, whatever programming does to it: nothing outside the image is touched. */
  lemma {:induction false} ScriptFrame(p: Program, d: Device, addr: nat, data: seq<byte>, placed: bool, i: nat)
    requires i < |d.cells| && (i < addr || i >= addr + |data|) && (placed ==> d.at == addr)
    ensures var e := ExecAll(p, d, Script(addr, data, placed)); |e.cells| == |d.cells| && e.cells[i] == d.cells[i]
    decreases |data|
  {
    if |data| <= TRSF_SIZE {
      ExecConcat(p, d, [Download(addr, |data|)], [SendData(data)]);
      OneCommand(p, d, Download(addr, |data|));
      OneCommand(p, d.(at := addr), SendData(data));
      assert [Download(addr, |data|)] + [SendData(data)] == [Download(addr, |data|), SendData(data)];
    } else {
      var packet, rest := data[..TRSF_SIZE], data[TRSF_SIZE..];
      if packet == EmptyPacket() {
        ScriptFrame(p, d, addr + TRSF_SIZE, rest, false, i);
      } else {
        AfterPacket(p, d, addr, data, placed);
        ScriptFrame(p, Device(Programmed(p, d.cells, addr, packet), addr + TRSF_SIZE), addr + TRSF_SIZE, rest, true, i);
      }
    }
  }

  lemma FirstSent(p: Program, d: Device, addr: nat, packet: seq<byte>, size: nat, placed: bool)
    requires placed ==> d.at == addr
    ensures var first := (if placed then [] else [Download(addr, size)]) + [SendData(packet)];
      ExecAll(p, d, first) == Device(Programmed(p, d.cells, addr, packet), addr + |packet|)
  {
    OneCommand(p, d, SendData(packet));
    if placed {
      assert [] + [SendData(packet)] == [SendData(packet)];
    } else {
      ExecConcat(p, d, [Download(addr, size)], [SendData(packet)]);
      OneCommand(p, d, Download(addr, size));
      OneCommand(p, d.(at := addr), SendData(packet));
    }
  }

  /** On a flash that is not erased skipping is not harmless: a skipped packet is in place
      afterwards exactly if it was there before. */
  lemma SkippedIfErased(p: Program, d: Device, addr: nat, data: seq<byte>, placed: bool)
    requires |data| > TRSF_SIZE && data[..TRSF_SIZE] == EmptyPacket() && addr + |data| <= |d.cells|
    ensures var e := ExecAll(p, d, Script(addr, data, placed));
      |e.cells| == |d.cells|
        && (e.cells[addr..addr + TRSF_SIZE] == data[..TRSF_SIZE] <==> Erased(d.cells, addr, TRSF_SIZE))
  {
    var e := ExecAll(p, d, Script(addr, data, placed));
    forall i | addr <= i < addr + TRSF_SIZE ensures |e.cells| == |d.cells| && e.cells[i] == d.cells[i] {
      ScriptFrame(p, d, addr + TRSF_SIZE, data[TRSF_SIZE..], false, i);
    }
    ScriptFrame(p, d, addr + TRSF_SIZE, data[TRSF_SIZE..], false, addr);
    var now := e.cells[addr..addr + TRSF_SIZE];
    if now == EmptyPacket() {
      forall i | addr <= i < addr + TRSF_SIZE ensures d.cells[i] == 0xFF {
        assert now[i - addr] == EmptyPacket()[i - addr];
      }
    }
  }

  /** Sending the first packet leaves the rest of the commands for the device it leaves. */
  lemma AfterPacket(p: Program, d: Device, addr: nat, data: seq<byte>, placed: bool)
    requires |data| > TRSF_SIZE && data[..TRSF_SIZE] != EmptyPacket() && (placed ==> d.at == addr)
    ensures var next := addr + TRSF_SIZE;
      ExecAll(p, d, Script(addr, data, placed))
      == ExecAll(p, Device(Programmed(p, d.cells, addr, data[..TRSF_SIZE]), next),
                 Script(next, data[TRSF_SIZE..], true))
  {
    var packet := data[..TRSF_SIZE];
    var first := (if placed then [] else [Download(addr, |data|)]) + [SendData(packet)];
    FirstSent(p, d, addr, packet, |data|, placed);
    ExecConcat(p, d, first, Script(addr + TRSF_SIZE, data[TRSF_SIZE..], true));
  }

  /** The i-th byte of the image lies in a packet that is skipped. */
  predicate Skipped(data: seq<byte>, i: nat)
    requires i < |data|
    decreases |data|
  {
    |data| > TRSF_SIZE &&
    if i < TRSF_SIZE then data[..TRSF_SIZE] == EmptyPacket() else Skipped(data[TRSF_SIZE..], i - TRSF_SIZE)
  }

  /** What becomes of the cell for the i-th byte. */
  function CellAfter(p: Program, x: byte, data: seq<byte>, i: nat): byte
    requires i < |data|
  {
    if Skipped(data, i) then x else p(x, data[i])
  }

  /** On any flash, the cell for the i-th byte afterwards: untouched if its packet was
      skipped, and programmed with that byte, once, if not. */
  lemma {:induction false} ScriptCell(p: Program, d: Device, addr: nat, data: seq<byte>, placed: bool, i: nat)
    requires i < |data| && addr + |data| <= |d.cells| && (placed ==> d.at == addr)
    ensures var e := ExecAll(p, d, Script(addr, data, placed));
      |e.cells| == |d.cells| && e.cells[addr + i] == CellAfter(p, d.cells[addr + i], data, i)
    decreases |data|
  {
    var next := addr + TRSF_SIZE;
    if |data| <= TRSF_SIZE {
      CellInLast(p, d, addr, data, i);
    } else if i < TRSF_SIZE {
      if data[..TRSF_SIZE] == EmptyPacket() {
        CellSkipped(p, d, addr, data, placed, i);
      } else {
        CellSent(p, d, addr, data, placed, i);
      }
    } else if data[..TRSF_SIZE] == EmptyPacket() {
      ScriptCell(p, d, next, data[TRSF_SIZE..], false, i - TRSF_SIZE);
      CellLater(p, d.cells[addr + i], data, i);
      assert next + (i - TRSF_SIZE) == addr + i;
    } else {
      AfterPacket(p, d, addr, data, placed);
      var cells := Programmed(p, d.cells, addr, data[..TRSF_SIZE]);
      ScriptCell(p, Device(cells, next), next, data[TRSF_SIZE..], true, i - TRSF_SIZE);
      CellLater(p, d.cells[addr + i], data, i);
      assert next + (i - TRSF_SIZE) == addr + i && cells[addr + i] == d.cells[addr + i];
    }
  }

  /** A byte after the first packet is a byte of the rest. */
  lemma CellLater(p: Program, x: byte, data: seq<byte>, i: nat)
    requires TRSF_SIZE <= i < |data|
    ensures CellAfter(p, x, data[TRSF_SIZE..], i - TRSF_SIZE) == CellAfter(p, x, data, i)
  {
  }

  lemma CellInLast(p: Program, d: Device, addr: nat, data: seq<byte>, i: nat)
    requires i < |data| <= TRSF_SIZE && addr + |data| <= |d.cells|
    ensures var e := ExecAll(p, d, [Download(addr, |data|), SendData(data)]);
      |e.cells| == |d.cells| && e.cells[addr + i] == p(d.cells[addr + i], data[i])
  {
    FirstSent(p, d, addr, data, |data|, false);
    assert [Download(addr, |data|)] + [SendData(data)] == [Download(addr, |data|), SendData(data)];
  }

  lemma CellSkipped(p: Program, d: Device, addr: nat, data: seq<byte>, placed: bool, i: nat)
    requires i < TRSF_SIZE < |data| && addr + |data| <= |d.cells| && data[..TRSF_SIZE] == EmptyPacket()
    ensures var e := ExecAll(p, d, Script(addr, data, placed));
      |e.cells| == |d.cells| && e.cells[addr + i] == d.cells[addr + i]
  {
    ScriptFrame(p, d, addr + TRSF_SIZE, data[TRSF_SIZE..], false, addr + i);
  }

  lemma CellSent(p: Program, d: Device, addr: nat, data: seq<byte>, placed: bool, i: nat)
    requires i < TRSF_SIZE < |data| && addr + |data| <= |d.cells| && data[..TRSF_SIZE] != EmptyPacket()
    requires placed ==> d.at == addr
    ensures var e := ExecAll(p, d, Script(addr, data, placed));
      |e.cells| == |d.cells| && e.cells[addr + i] == p(d.cells[addr + i], data[i])
  {
    var next, cells := addr + TRSF_SIZE, Programmed(p, d.cells, addr, data[..TRSF_SIZE]);
    AfterPacket(p, d, addr, data, placed);
    ScriptFrame(p, Device(cells, next), next, data[TRSF_SIZE..], true, addr + i);
    ProgrammedCell(p, d.cells, addr, data[..TRSF_SIZE], i);
  }

  lemma ProgrammedCell(p: Program, cells: seq<byte>, at: nat, data: seq<byte>, i: nat)
    requires i < |data| && at + |data| <= |cells|
    ensures Programmed(p, cells, at, data)[at + i] == p(cells[at + i], data[i])
  {
  }

  lemma {:induction false} SkippedIsEmpty(data: seq<byte>, i: nat)
    requires i < |data| && Skipped(data, i)
    ensures data[i] == 0xFF
    decreases |data|
  {
    if i < TRSF_SIZE {
      assert data[..TRSF_SIZE][i] == EmptyPacket()[i];
    } else {
      SkippedIsEmpty(data[TRSF_SIZE..], i - TRSF_SIZE);
    }
  }

  /** The cell allows its byte to end up in it: erased if the byte is skipped, and one that
      programming turns into the byte if it is sent. */
  ghost predicate Takes(p: Program, cells: seq<byte>, addr: nat, data: seq<byte>, i: nat)
    requires i < |data| && addr + |data| <= |cells|
  {
    var x := cells[addr + i];
    if Skipped(data, i) then x == 0xFF else p(x, data[i]) == data[i]
  }

  /** On any flash, the image is in place afterwards, with everything else as it was, exactly
      if each cell allowed it before. */
  lemma InPlaceExactly(p: Program, d: Device, addr: nat, data: seq<byte>, placed: bool)
    requires addr + |data| <= |d.cells| && (placed ==> d.at == addr)
    ensures ExecAll(p, d, Script(addr, data, placed)).cells == Burnt(d.cells, addr, data)
      <==> forall i :: 0 <= i < |data| ==> Takes(p, d.cells, addr, data, i)
  {
    var e, b := ExecAll(p, d, Script(addr, data, placed)).cells, Burnt(d.cells, addr, data);
    SameSize(p, d, Script(addr, data, placed));
    forall j | 0 <= j < |d.cells| && !(addr <= j < addr + |data|) ensures e[j] == b[j] {
      ScriptFrame(p, d, addr, data, placed, j);
    }
    forall i | 0 <= i < |data| ensures e[addr + i] == b[addr + i] <==> Takes(p, d.cells, addr, data, i) {
      ScriptCell(p, d, addr, data, placed, i);
      if Skipped(data, i) {
        SkippedIsEmpty(data, i);
      }
    }
    if forall i :: 0 <= i < |data| ==> Takes(p, d.cells, addr, data, i) {
      forall j | 0 <= j < |e| ensures e[j] == b[j] {
        if addr <= j < addr + |data| {
          assert Takes(p, d.cells, addr, data, j - addr);
        }
      }
    }
  }

  lemma {:induction false} SameSize(p: Program, d: Device, cs: seq<Command>)
    ensures |ExecAll(p, d, cs).cells| == |d.cells|
    decreases |cs|
  {
    if cs != [] {
      SameSize(p, Exec(p, d, cs[0]), cs[1..]);
    }
  }

  datatype Outcome = Done | AbortedByUser | InvalidSize

  /** The serial link with a device behind it that acknowledges every command. */
  class CommandInterface {
    const program: Program
    var device: Device
    var sent: seq<Command>

    constructor (program: Program, device: Device)
      ensures this.program == program && this.device == device && sent == []
    {
      this.program, this.device, sent := program, device, [];
    }

    /** Refuses a size that is not a multiple of 4 before it sends anything. */
    method CmdDownload(addr: nat, size: nat) returns (ok: bool)
      modifies this
      ensures ok == (size % 4 == 0)
      ensures ok ==>
        sent == old(sent) + [Download(addr, size)] && device == Exec(program, old(device), Download(addr, size))
      ensures !ok ==> sent == old(sent) && device == old(device)
    {
      ok := size % 4 == 0;
      if ok {
        sent := sent + [Download(addr, size)];
        device := Exec(program, device, Download(addr, size));
      }
    }

    method CmdSendData(data: seq<byte>)
      modifies this
      ensures sent == old(sent) + [SendData(data)] && device == Exec(program, old(device), SendData(data))
    {
      sent := sent + [SendData(data)];
      device := Exec(program, device, SendData(data));
    }

    /** The backdoor bit of a 512K image is clear and nobody insists. */
    predicate Refused(data: seq<byte>, confirmed: bool) {
      |data| == SIZE_512K && data[BACKDOOR_BYTE] / 16 % 2 == 0 && !confirmed
    }

    method WriteMemory(addr: nat, data: seq<byte>, confirmed: bool) returns (r: Outcome)
      modifies this
      ensures r == if Refused(data, confirmed) then AbortedByUser else if |data| % 4 != 0 then InvalidSize else Done
      ensures r != Done ==> sent == old(sent) && device == old(device)
      ensures r == Done ==>
        && sent == old(sent) + Script(addr, data, false)
        && device == ExecAll(program, old(device), Script(addr, data, false))
      ensures r == Done && TakesOnErased(program) && Erased(old(device).cells, addr, |data|) ==>
        device.cells == Burnt(old(device).cells, addr, data)
    {
      var lng := |data|;
      if lng == SIZE_512K {
        if data[BACKDOOR_BYTE] / 16 % 2 == 0 {
          if !confirmed {
            return AbortedByUser;
          }
        }
      }
      var ok := SendAll(addr, data);
      if !ok {
        return InvalidSize;
      }
      if TakesOnErased(program) && Erased(old(device).cells, addr, |data|) {
        ScriptBurns(program, old(device), addr, data, false);
      }
      r := Done;
    }

    /** Exactly the commands `done` were sent since the device was `d` and the log was `log`. */
    ghost predicate Ran(d: Device, log: seq<Command>, done: seq<Command>)
      reads this
    {
      sent == log + done && device == ExecAll(program, d, done)
    }

    /** One more command behind those already executed. */
    lemma RanOneMore(d: Device, log: seq<Command>, done: seq<Command>, c: Command)
      requires sent == log + done + [c] && device == Exec(program, ExecAll(program, d, done), c)
      ensures Ran(d, log, done + [c])
    {
      ExecConcat(program, d, done, [c]);
      OneCommand(program, ExecAll(program, d, done), c);
      assert log + (done + [c]) == log + done + [c];
    }

    /** Sends one packet, after the address if the device does not point there. */
    method SendPacket(addr: nat, lng: nat, packet: seq<byte>, placed: bool,
      ghost d: Device, ghost log: seq<Command>, ghost done: seq<Command>)
      returns (ok: bool)
      requires Ran(d, log, done) && (placed ==> lng % 4 == 0)
      modifies this
      ensures ok == (lng % 4 == 0)
      ensures ok ==> Ran(d, log, done + (if placed then [] else [Download(addr, lng)]) + [SendData(packet)])
      ensures !ok ==> Ran(d, log, done)
    {
      ghost var first := done + if placed then [] else [Download(addr, lng)];
      if !placed {
        ok := CmdDownload(addr, lng);
        if !ok {
          return;
        }
        RanOneMore(d, log, done, Download(addr, lng));
      } else {
        assert first == done;
      }
      CmdSendData(packet);
      RanOneMore(d, log, first, SendData(packet));
      ok := true;
    }

    /** One round of the loop over full packets: a packet is sent or skipped. */
    method FullPacket(addr: nat, data: seq<byte>, offs: nat, placed: bool, ghost d: Device,
                      ghost log: seq<Command>, ghost done: seq<Command>)
      returns (ok: bool, placed': bool, ghost done': seq<Command>)
      requires offs + TRSF_SIZE < |data| && Ran(d, log, done) && (placed ==> |data[offs..]| % 4 == 0)
      modifies this
      ensures Ran(d, log, done') && (|data[offs..]| % 4 != 0 ==> done' == done && !placed')
      ensures !ok ==> |data[offs..]| % 4 != 0
      ensures ok ==>
        done' + Script(addr + TRSF_SIZE, data[offs + TRSF_SIZE..], placed') == done + Script(addr, data[offs..], placed)
    {
      ok, placed', done' := true, false, done;
      var packet := data[offs..offs + TRSF_SIZE];
      ghost var rest := data[offs..];
      assert rest[..TRSF_SIZE] == packet && rest[TRSF_SIZE..] == data[offs + TRSF_SIZE..];
      NextPacket(done, addr, rest, placed);
      if packet != EmptyPacket() {
        ok := SendPacket(addr, |data| - offs, packet, placed, d, log, done);
        if ok {
          done' := done + (if placed then [] else [Download(addr, |rest|)]) + [SendData(packet)];
          placed' := true;
        }
      }
    }

    /** The loop over full packets; what is left is at most one packet. */
    method SendFull(start: nat, data: seq<byte>) returns (ok: bool, addr: nat, offs: nat, ghost done: seq<Command>)
      modifies this
      ensures offs <= |data| && Ran(old(device), old(sent), done)
      ensures |data| % 4 != 0 ==> done == []
      ensures !ok ==> |data| % 4 != 0
      ensures ok ==> |data| - offs <= TRSF_SIZE && (|data| - offs) % 4 == |data| % 4
      ensures ok ==> Script(start, data, false) == done + [Download(addr, |data| - offs), SendData(data[offs..])]
    {
      var lng, addrSet := |data|, false;
      ok, addr, offs, done := true, start, 0, [];
      assert data[0..] == data;
      while lng > TRSF_SIZE
        invariant offs + lng == |data| && lng >= 0 && lng % 4 == |data| % 4
        invariant Ran(old(device), old(sent), done)
        invariant |data| % 4 != 0 ==> done == [] && !addrSet
        invariant ok && done + Script(addr, data[offs..], addrSet) == Script(start, data, false)
      {
        ok, addrSet, done := FullPacket(addr, data, offs, addrSet, old(device), old(sent), done);
        if !ok {
          return;
        }
        offs := offs + TRSF_SIZE;
        addr := addr + TRSF_SIZE;
        lng := lng - TRSF_SIZE;
      }
    }

    method SendAll(start: nat, data: seq<byte>) returns (ok: bool)
      modifies this
      ensures ok == (|data| % 4 == 0)
      ensures !ok ==> sent == old(sent) && device == old(device)
      ensures ok ==>
        && sent == old(sent) + Script(start, data, false)
        && device == ExecAll(program, old(device), Script(start, data, false))
    {
      var full, addr, offs, done := SendFull(start, data);
      if !full {
        return false;
      }
      ok := SendPacket(addr, |data| - offs, data[offs..], false, old(device), old(sent), done);
      assert done + [Download(addr, |data| - offs)] + [SendData(data[offs..])]
        == done + [Download(addr, |data| - offs), SendData(data[offs..])];
    }
  }
}
