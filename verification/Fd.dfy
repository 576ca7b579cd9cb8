/**
 src/fd.c: the calls on the global descriptor table. Each is the source's code; its contract gives
 the new archive, disk and table as a step of module Descriptors.
 */
module Fd {
  import opened Bytes
  import opened Dictionary
  import opened Archive
  import opened Descriptors
  import Console
  import Terminal
  import Ustar

  class Table {
    const tar: Ustar.Tar
    const fdTable: array<FileDesc>
    const screen: Terminal.Screen
    const editor: Console.Editor

    ghost predicate Valid()
      reads this, tar, tar.buf, fdTable, screen, screen.vga
    {
      && fdTable.Length == FD_MAX_FILES && tar.Sized() && tar.HasDisk()
      && screen.Valid() && screen.vga != tar.buf && editor.screen == screen
    }

    ghost function St(): State
      requires Valid()
      reads this, tar, tar.buf, fdTable, screen, screen.vga
    {
      State(tar.buf[..], Ustar.DiskImage(tar.disk, tar.buf.Length / 512), fdTable[..])
    }

    constructor (tar: Ustar.Tar, editor: Console.Editor)
      requires tar.Sized() && tar.HasDisk() && editor.screen.Valid() && editor.screen.vga != tar.buf
      ensures Valid() && this.tar == tar && this.editor == editor && fresh(fdTable)
      ensures forall i :: 0 <= i < FD_MAX_FILES ==> fdTable[i] == CLOSED
    {
      this.tar, this.editor, this.screen := tar, editor, editor.screen;
      fdTable := new FileDesc[FD_MAX_FILES](_ => CLOSED);
    }

    /** Nothing but this slot differs from the state before. */
    twostate predicate OnlySlot(slot: nat)
      reads fdTable
    {
      forall i :: 0 <= i < fdTable.Length && i != slot ==> fdTable[i] == old(fdTable[i])
    }

    /** fdInit; the dirty mark stays. */
    method FdInit()
      requires Valid()
      modifies fdTable
      ensures Valid() && St().buf == old(St().buf) && St().disk == old(St().disk)
      ensures forall i :: 0 <= i < FD_MAX_FILES ==> fdTable[i] == CLOSED.(dirty := old(fdTable[i]).dirty)
    {
      for i := 0 to FD_MAX_FILES
        invariant forall j :: 0 <= j < FD_MAX_FILES ==>
                    fdTable[j] == if j < i then CLOSED.(dirty := old(fdTable[j]).dirty) else old(fdTable[j])
      {
        fdTable[i] := CLOSED.(dirty := fdTable[i].dirty);
      }
    }

    // ---- open ----

    /** Lines 24-35 of open: the header of the file, after creating and truncating as asked. */
    method FindOrMake(path: seq<byte>, flags: nat) returns (usableTh: Option<nat>)
      requires tar.Valid() && CanMake(tar.buf[..], path, flags)
      modifies tar.buf
      ensures tar.Valid()
      ensures usableTh.Some? == (Has(Files(old(tar.buf[..])), path) || HasFlag(flags, O_CREAT))
      ensures usableTh == None ==> tar.buf[..] == old(tar.buf[..])
      ensures usableTh.Some? ==> tar.buf[..] == OpenImage(old(tar.buf[..]), path, flags)
                                 && usableTh == FindOffset(tar.buf[..], path)
    {
      usableTh := tar.TarFind(path);
      if usableTh == None {
        if HasFlag(flags, O_CREAT) {
          Created(tar.buf[..], path);
          var _ := tar.TarTouch(path);
          usableTh := tar.TarFind(path);
        } else {
          return None;
        }
      }
      if HasFlag(flags, O_TRUNC) {
        Truncated(tar.buf[..], path);
        var _ := tar.TarEdit(path, []);
        usableTh := tar.TarFind(path);
      }
    }

    lemma {:induction false} FreeSlotIs(fds: seq<FileDesc>, slot: nat)
      requires slot <= |fds| && (forall j :: 0 <= j < slot ==> fds[j].isInUse)
      requires slot < |fds| ==> !fds[slot].isInUse
      ensures FreeSlot(fds) == slot
      decreases slot
    {
      if slot > 0 {
        FreeSlotIs(fds[1..], slot - 1);
      }
    }

    method FindSlot() returns (slot: nat)
      requires fdTable.Length == FD_MAX_FILES
      ensures slot == FreeSlot(fdTable[..])
    {
      slot := 0;
      while slot < FD_MAX_FILES
        invariant slot <= FD_MAX_FILES && forall j :: 0 <= j < slot ==> fdTable[j].isInUse
      {
        if !fdTable[slot].isInUse {
          break;
        }
        slot := slot + 1;
      }
      FreeSlotIs(fdTable[..], slot);
    }

    method Open(path: seq<byte>, flags: nat) returns (fd: int)
      requires Valid() && CanOpen(St(), path, flags)
      modifies tar.buf, fdTable
      ensures Valid() && (St(), fd) == OpenStep(old(St()), path, flags)
    {
      ghost var st := St();
      var usableTh := FindOrMake(path, flags);
      if usableTh == None {
        OpenMisses(st, path, flags);
        return -1;
      }
      ghost var s := tar.buf[..];
      var slot := FindSlot();
      if slot == FD_MAX_FILES {
        OpenIsFull(st, path, flags, s);
        return -1;
      }
      OpenFills(st, path, flags, s, slot);
      FillSlot(slot, usableTh.value, path, flags);
      fd := slot + 3;
    }

    /** The stores to the slot found. */
    method FillSlot(slot: nat, th: nat, path: seq<byte>, flags: nat)
      requires tar.Valid() && slot < fdTable.Length && FindOffset(tar.buf[..], path) == Some(th)
      modifies fdTable
      ensures Has(Files(tar.buf[..]), path)
      ensures fdTable[..] == old(fdTable[..])[slot := Opened(tar.buf[..], path, flags)]
    {
      var size := tar.TarGetSize(path);
      fdTable[slot] := FileDesc(path, true, false, Some(th + BLOCK), size, 0, flags);
    }

    // ---- read ----

    /** The copy loop of read: rwPos goes up with every byte. */
    method CopyOut(slot: nat, dest: array<byte>, from: nat, n: nat)
      requires fdTable.Length == FD_MAX_FILES && slot < FD_MAX_FILES
      requires dest != tar.buf && n <= dest.Length && from + n <= tar.buf.Length
      modifies dest, fdTable
      ensures OnlySlot(slot) && fdTable[slot] == old(fdTable[slot]).(rwPos := old(fdTable[slot]).rwPos + n)
      ensures dest[..n] == tar.buf[from..from + n] && dest[n..] == old(dest[n..])
    {
      for i := 0 to n
        invariant OnlySlot(slot)
        invariant fdTable[slot] == old(fdTable[slot]).(rwPos := old(fdTable[slot]).rwPos + i)
        invariant forall j :: 0 <= j < dest.Length ==>
                    dest[j] == if j < i then tar.buf[from + j] else old(dest[j])
      {
        dest[i] := tar.buf[from + i];
        fdTable[slot] := fdTable[slot].(rwPos := fdTable[slot].rwPos + 1);
      }
    }

    /** The count read and write settle on: the 32-bit sum is compared with the size. */
    method ClampCount(slot: nat, count: nat) returns (k: nat)
      requires slot < fdTable.Length && fdTable[slot].rwPos < fdTable[slot].size < WRAP && count < WRAP
      ensures k == Clamp(fdTable[slot].rwPos, count, fdTable[slot].size)
    {
      k := count;
      if (fdTable[slot].rwPos + count) % WRAP > fdTable[slot].size {
        k := fdTable[slot].size - fdTable[slot].rwPos;
      }
    }

    /** Lines 58-73 of read: every descriptor but standard input. */
    method ReadFile(fd_: int, dest: array<byte>, count: nat) returns (r: int)
      requires fd_ >= 1 && Valid() && Safe(St()) && NoWrap(St(), fd_, count)
      requires dest != tar.buf && dest != screen.vga && dest.Length >= count
      modifies dest, fdTable
      ensures Valid()
      ensures var (st, n, bs) := ReadStep(old(St()), fd_, count);
              && St() == st && r == n && |bs| <= dest.Length
              && dest[..|bs|] == bs && dest[|bs|..] == old(dest[|bs|..])
    {
      if fd_ == 1 || fd_ == 2 {
        return -1;
      }
      if fd_ >= FD_MAX_FILES + 3 {
        return -1;
      }
      var slot := fd_ - 3;
      if !fdTable[slot].isInUse {
        return -1;
      }
      if fdTable[slot].rwPos >= fdTable[slot].size {
        return 0;
      }
      TransferFits(St(), fd_, count);
      var k := ClampCount(slot, count);
      CopyOut(slot, dest, fdTable[slot].data.value + fdTable[slot].rwPos, k);
      assert fdTable[..] == old(fdTable[..])[slot := fdTable[slot]];
      r := k;
    }

    /** strlen, of a string with a NUL at position end or before. */
    method StrLen(str: array<byte>, ghost end: nat) returns (n: nat)
      requires end < str.Length && str[end] == NUL
      ensures n <= end && str[n] == NUL && forall k :: 0 <= k < n ==> str[k] != NUL
    {
      n := 0;
      while str[n] != NUL
        invariant n <= end && forall k :: 0 <= k < n ==> str[k] != NUL
        decreases end - n
      {
        n := n + 1;
      }
    }

    /**
     Lines 53-57 of read: the line typed, whatever the count, with its NUL; the number returned is
     its length.
     */
    method ReadStdin(dest: array<byte>) returns (r: int)
      requires Valid() && dest != tar.buf && dest != screen.vga && editor.CanGet(dest.Length)
      modifies dest, editor, screen.vga, screen`cursorX, screen`cursorY, screen`log
      ensures Valid() && St() == old(St())
      ensures r == |LineOf(old(editor.pending))| && Console.HoldsString(dest, LineOf(old(editor.pending)))
      ensures forall k :: r < k < dest.Length ==> dest[k] == old(dest[k])
      ensures editor.pending == Console.AfterRow(old(editor.pending)) && !editor.eofTrigger
      ensures screen.log == Console.LineEcho(old(screen.log), old(editor.pending), screen.color)
    {
      ghost var text := LineOf(editor.pending);
      editor.FmtGetString(dest);
      assert forall k :: 0 <= k < |text| ==> dest[k] == text[k] && text[k] in text;
      r := StrLen(dest, |text|);
    }

    /** The text of the line typed. */
    ghost function LineOf(keys: seq<byte>): seq<byte> {
      Console.Typed(Console.Row(keys))
    }

    /** The room read needs: count bytes of a file, or the whole line typed, which count does not bound. */
    ghost predicate RoomToRead(fd_: int, room: nat, count: nat)
      reads editor
    {
      if fd_ == 0 then editor.CanGet(room) else count <= room
    }

    method Read(fd_: int, dest: array<byte>, count: nat) returns (r: int)
      requires fd_ >= 0 && Valid() && Safe(St()) && NoWrap(St(), fd_, count)
      requires dest != tar.buf && dest != screen.vga && RoomToRead(fd_, dest.Length, count)
      modifies dest, fdTable, editor, screen.vga, screen`cursorX, screen`cursorY, screen`log
      ensures Valid()
      ensures fd_ == 0 ==>
                && St() == old(St())
                && r == |LineOf(old(editor.pending))| && Console.HoldsString(dest, LineOf(old(editor.pending)))
                && (r <= count <==> |LineOf(old(editor.pending))| <= count)
                && (forall k :: r < k < dest.Length ==> dest[k] == old(dest[k]))
                && editor.pending == Console.AfterRow(old(editor.pending)) && !editor.eofTrigger
                && screen.log == Console.LineEcho(old(screen.log), old(editor.pending), screen.color)
      ensures fd_ != 0 ==>
                && editor.pending == old(editor.pending) && editor.eofTrigger == old(editor.eofTrigger)
                && screen.log == old(screen.log)
                && var (st, n, bs) := ReadStep(old(St()), fd_, count);
                && St() == st && r == n && |bs| <= dest.Length
                && dest[..|bs|] == bs && dest[|bs|..] == old(dest[|bs|..])
    {
      if fd_ == 0 {
        r := ReadStdin(dest);
      } else {
        r := ReadFile(fd_, dest, count);
      }
    }

    // ---- write ----

    /** The copy loop of write, into the archive. */
    method CopyIn(slot: nat, at: nat, src: seq<byte>)
      requires fdTable.Length == FD_MAX_FILES && slot < FD_MAX_FILES && at + |src| <= tar.buf.Length
      modifies tar.buf, fdTable
      ensures OnlySlot(slot) && fdTable[slot] == old(fdTable[slot]).(rwPos := old(fdTable[slot]).rwPos + |src|)
      ensures tar.buf[..] == Patch(old(tar.buf[..]), at, src)
    {
      for i := 0 to |src|
        invariant OnlySlot(slot)
        invariant fdTable[slot] == old(fdTable[slot]).(rwPos := old(fdTable[slot]).rwPos + i)
        invariant forall j :: 0 <= j < tar.buf.Length ==>
                    tar.buf[j] == if at <= j < at + i then src[j - at] else old(tar.buf[j])
      {
        tar.buf[at + i] := src[i];
        fdTable[slot] := fdTable[slot].(rwPos := fdTable[slot].rwPos + 1);
      }
    }

    /** write to standard output or error: every character goes to the terminal, in order. */
    method WriteScreen(src: seq<byte>)
      requires Valid()
      modifies screen.vga, screen`cursorX, screen`cursorY, screen`log
      ensures Valid() && St() == old(St())
      ensures screen.log == Terminal.PutAll(old(screen.log), src, screen.color)
    {
      for i := 0 to |src|
        invariant Valid() && St() == old(St())
        invariant Terminal.PutAll(screen.log, src[i..], screen.color)
                  == Terminal.PutAll(old(screen.log), src, screen.color)
      {
        screen.WriteChar(src[i]);
        assert src[i..][0] == src[i] && src[i..][1..] == src[i + 1..];
      }
    }

    method Write(fd_: int, src: seq<byte>) returns (r: int)
      requires fd_ >= 0 && Valid() && Safe(St()) && NoWrap(St(), fd_, |src|)
      modifies tar.buf, fdTable, screen.vga, screen`cursorX, screen`cursorY, screen`log
      ensures Valid()
      ensures fd_ == 1 || fd_ == 2 ==>
                && r == |src| && St() == old(St())
                && screen.log == Terminal.PutAll(old(screen.log), src, screen.color)
      ensures fd_ != 1 && fd_ != 2 ==>
                (St(), r) == WriteStep(old(St()), fd_, src) && screen.log == old(screen.log)
    {
      if fd_ == 1 || fd_ == 2 {
        WriteScreen(src);
        return |src|;
      }
      if fd_ == 0 {
        return -1;
      }
      if fd_ >= FD_MAX_FILES + 3 {
        return -1;
      }
      var slot := fd_ - 3;
      if !fdTable[slot].isInUse {
        return -1;
      }
      if fdTable[slot].rwPos >= fdTable[slot].size {
        return 0;
      }
      TransferFits(St(), fd_, |src|);
      var k := ClampCount(slot, |src|);
      CopyIn(slot, fdTable[slot].data.value + fdTable[slot].rwPos, src[..k]);
      fdTable[slot] := fdTable[slot].(dirty := true);
      assert fdTable[..] == old(fdTable[..])[slot := fdTable[slot]];
      r := k;
    }

    // ---- close ----

    method Close(fd_: int) returns (r: int)
      requires Valid()
      modifies tar`disk, fdTable
      ensures Valid() && (St(), r) == CloseStep(old(St()), fd_)
    {
      if fd_ < 3 {
        return -1;
      }
      if fd_ >= FD_MAX_FILES + 3 {
        return -1;
      }
      var slot := fd_ - 3;
      if !fdTable[slot].isInUse {
        return -1;
      }
      if fdTable[slot].dirty {
        tar.TarFlush();
      }
      fdTable[slot] := CLOSED.(dirty := fdTable[slot].dirty);
      assert fdTable[..] == old(fdTable[..])[slot := fdTable[slot]];
      r := 0;
    }
  }
}
