/** Write protection around the start of the application, Bootloader/BootloaderEntrance.c. */
module BootEntrance {
  import opened Flash
  import opened StringUtils

  const PARTITIONS: nat := 8

  /** The order of mico_partition_t. */
  function Nth(i: nat): (p: Partition)
    requires i < PARTITIONS
  {
    match i
    case 0 => Bootloader
    case 1 => Application
    case 2 => Ate
    case 3 => OtaTemp
    case 4 => RfFirmware
    case 5 => Parameter1
    case 6 => Parameter2
    case _ => ObjectModel
  }

  function Index(p: Partition): (i: nat)
    ensures i < PARTITIONS && Nth(i) == p
  {
    match p
    case Bootloader => 0
    case Application => 1
    case Ate => 2
    case OtaTemp => 3
    case RfFirmware => 4
    case Parameter1 => 5
    case Parameter2 => 6
    case ObjectModel => 7
  }

  predicate Inside(info: Info, a: nat) {
    info.present && info.start <= a < info.start + info.length
  }

  /** No cell of the partition can be written. */
  predicate Guarded(info: Info, writable: set<nat>) {
    forall a :: a in writable ==> !Inside(info, a)
  }

  /** What the command line can lead to: cells made writable, the application started, a reset. */
  datatype Command = Unprotect(cells: set<nat>) | Boot | Reboot | Other

  /** Some BOOT is entered with no REBOOT before it. */
  predicate Boots(commands: seq<Command>) {
    exists k :: 0 <= k < |commands| && commands[k].Boot? && Reboot !in commands[..k]
  }

  /** The cells that the commands make writable, up to the first BOOT or REBOOT. */
  function Granted(commands: seq<Command>): (cells: set<nat>) {
    if commands == [] || commands[0].Boot? || commands[0].Reboot? then {}
    else (if commands[0].Unprotect? then commands[0].cells else {}) + Granted(commands[1..])
  }

  /** Command k unlocks the cell, and no BOOT or REBOOT comes before it. */
  predicate Unlocks(commands: seq<Command>, k: nat, a: nat) {
    && k < |commands| && commands[k].Unprotect? && a in commands[k].cells
    && forall j :: 0 <= j < k ==> !commands[j].Boot? && !commands[j].Reboot?
  }

  lemma {:induction false} GrantedIff(commands: seq<Command>, a: nat)
    ensures a in Granted(commands) <==> exists k: nat :: Unlocks(commands, k, a)
  {
    if commands != [] && !commands[0].Boot? && !commands[0].Reboot? {
      var rest := commands[1..];
      GrantedIff(rest, a);
      if k: nat :| Unlocks(rest, k, a) {
        assert Unlocks(commands, k + 1, a);
      }
      if k: nat :| Unlocks(commands, k, a) {
        assert k > 0 ==> Unlocks(rest, k - 1, a);
      }
      assert commands[0].Unprotect? && a in commands[0].cells ==> Unlocks(commands, 0, a);
    }
  }

  class Loader {
    const layout: Layout
    const writeDisabled: Partition -> bool
    /** Which calls of MicoFlashEnableSecurity fail, in each run of enable_protection. */
    const fails: (nat, Partition) -> bool
    var writable: set<nat>
    /** How often enable_protection has run. */
    var passes: nat
    /** The address at which control has left the bootloader. */
    var entered: Option<nat>

    constructor (layout: Layout, writeDisabled: Partition -> bool, fails: (nat, Partition) -> bool, writable: set<nat>)
      ensures this.layout == layout && this.writeDisabled == writeDisabled && this.fails == fails
      ensures this.writable == writable && passes == 0 && entered.None?
    {
      this.layout, this.writeDisabled, this.fails, this.writable := layout, writeDisabled, fails, writable;
      passes, entered := 0, None;
    }

    /** A partition that a run of enable_protection does protect. */
    predicate Marked(pass: nat, p: Partition) {
      writeDisabled(p) && !fails(pass, p)
    }

    /** The cell lies in such a partition among the first n. */
    predicate Taken(pass: nat, n: nat, a: nat)
      requires n <= PARTITIONS
    {
      exists i :: 0 <= i < n && Marked(pass, Nth(i)) && Inside(layout(Nth(i)), a)
    }

    /** What a run of enable_protection leaves writable. */
    ghost function Closed(pass: nat, was: set<nat>): (r: set<nat>) {
      set a | a in was && forall p: Partition :: writeDisabled(p) && !fails(pass, p) ==> !Inside(layout(p), a)
    }

    lemma TakenByAny(pass: nat, a: nat)
      ensures Taken(pass, PARTITIONS, a) <==>
        exists p: Partition :: writeDisabled(p) && !fails(pass, p) && Inside(layout(p), a)
    {
      if p: Partition :| writeDisabled(p) && !fails(pass, p) && Inside(layout(p), a) {
        assert Nth(Index(p)) == p;
      }
    }

    /** enable_protection has run, and every partition marked PAR_OPT_WRITE_DIS is protected, except where the call
        for it failed in the last run. */
    predicate Protected()
      reads this
    {
      passes > 0 && forall p: Partition :: writeDisabled(p) && !fails(passes - 1, p) ==> Guarded(layout(p), writable)
    }

    /** MicoFlashEnableSecurity of a whole partition; its result is not looked at. */
    method EnableSecurity(p: Partition)
      modifies `writable
      ensures forall a :: a in writable <==> a in old(writable) && (fails(passes, p) || !Inside(layout(p), a))
    {
      if !fails(passes, p) { writable := set a | a in writable && !Inside(layout(p), a); }
    }

    method EnableProtection()
      modifies `writable, `passes
      ensures Protected() && passes == old(passes) + 1 && writable == Closed(old(passes), old(writable))
    {
      for i := 0 to PARTITIONS
        invariant passes == old(passes)
        invariant forall a :: a in writable <==> a in old(writable) && !Taken(passes, i, a)
      {
        ghost var was := writable;
        if writeDisabled(Nth(i)) { EnableSecurity(Nth(i)); }
        forall a ensures Taken(passes, i + 1, a) <==>
          Taken(passes, i, a) || (Marked(passes, Nth(i)) && Inside(layout(Nth(i)), a)) {
        }
      }
      forall a ensures a in writable <==> a in Closed(passes, old(writable)) { TakenByAny(passes, a); }
      passes := passes + 1;
    }

    /** Control leaves the bootloader here; all that is asked for is asked as a precondition. */
    method StartApplication(address: nat)
      requires Protected() && entered.None?
      modifies `entered
      ensures entered == Some(address)
    {
      entered := Some(address);
    }

    method BootloaderStartApp(address: nat)
      requires entered.None?
      modifies `writable, `passes, `entered
      ensures entered == Some(address) && Protected()
      ensures passes == old(passes) + 1 && writable == Closed(old(passes), old(writable))
    {
      EnableProtection();
      StartApplication(address);
    }

    /** Main_Menu, over the commands that are going to be entered, up to the start or a reset. */
    method MainMenu(commands: seq<Command>)
      requires entered.None?
      modifies `writable, `passes, `entered
      ensures entered.Some? ==> Protected()
      ensures entered == if Boots(commands) then Some(layout(Application).start) else None
      ensures entered.Some? ==> writable == Closed(old(passes), old(writable) + Granted(commands))
      ensures entered.None? ==> writable == old(writable) + Granted(commands)
    {
      var i := 0;
      while i < |commands|
        invariant i <= |commands| && entered.None? && passes == old(passes)
        invariant forall k :: 0 <= k < i ==> !commands[k].Boot? && commands[k] != Reboot
        invariant writable + Granted(commands[i..]) == old(writable) + Granted(commands)
      {
        assert commands[i..][1..] == commands[i + 1..];
        match commands[i] {
          case Unprotect(cells) => writable := writable + cells;
          case Boot =>
            assert writable == old(writable) + Granted(commands);
            BootloaderStartApp(layout(Application).start);
            return;
          case Reboot =>
            assert forall k :: i < k < |commands| ==> commands[..k][i] == Reboot;
            return;
          case Other =>
        }
        i := i + 1;
      }
    }

    /** main(): on every path, whatever `unlocked` cells mico_set_bootload_ver() and update() have left
        unprotected. It goes to the application unless it is held up, to the test firmware if that is asked for and
        there, and else to the command line, from which only BOOT leads on. */
    method Start(unlocked: set<nat>, stdioBreakIn: bool, enterBootloader: bool, enterMfg: bool, enterAte: bool,
            commands: seq<Command>)
      requires entered.None?
      modifies `writable, `passes, `entered
      ensures entered.Some? ==> Protected()
      ensures !stdioBreakIn && (!enterBootloader || enterMfg) ==> entered == Some(layout(Application).start)
      ensures !stdioBreakIn && enterBootloader && !enterMfg && enterAte && layout(Ate).present ==>
        entered == Some(layout(Ate).start)
      ensures stdioBreakIn || (enterBootloader && !enterMfg && !(enterAte && layout(Ate).present)) ==>
        entered == if Boots(commands) then Some(layout(Application).start) else None
      ensures var menu := stdioBreakIn || (enterBootloader && !enterMfg && !(enterAte && layout(Ate).present));
        var first := Closed(old(passes), old(writable) + unlocked) + if menu then Granted(commands) else {};
        writable == if entered.Some? then Closed(old(passes) + 1, first) else first
    {
      writable := writable + unlocked;
      EnableProtection();
      if !stdioBreakIn {
        if !enterBootloader {
          BootloaderStartApp(layout(Application).start);
          return;
        } else if enterMfg {
          BootloaderStartApp(layout(Application).start);
          return;
        } else if enterAte && layout(Ate).present {
          BootloaderStartApp(layout(Ate).start);
          return;
        }
      }
      MainMenu(commands);
    }
  }
}
