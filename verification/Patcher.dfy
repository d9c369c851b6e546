/** The passes themselves: one line buffer, one brace count and two found flags, shared
    by nested read loops.  Each pass is proved against its specification. */
module DsdtPatcher {
  import opened Wrappers
  import opened AslText
  import opened HpetText
  import RtcPass
  import HpetPass
  import HpetInsert
  import ConfigPass
  import VersionPass
  import FreshPrefix
  import VariousPass
  import Replace

  lemma Regroup<T>(a: seq<T>, b: seq<T>, c: seq<T>)
    ensures a + b + c == a + (b + c)
  {
  }

  class Patcher {
    var buffer: string
    var openBrackets: int
    var rtcDeviceFound: bool
    var hpetDeviceFound: bool

    // The two open files: the lines of the one read, with the read position, and the
    // strings written to the other.
    var orig: seq<string>
    var pos: nat
    var eof: bool
    var patched: seq<string>

    ghost predicate Valid()
      reads this
    {
      pos <= |orig| && (eof ==> pos == |orig|)
    }

    ghost function Rest(): seq<string>
      reads this
      requires Valid()
    {
      orig[pos..]
    }

    constructor ()
      ensures Valid() && !rtcDeviceFound && !hpetDeviceFound
    {
      buffer, openBrackets := "", 0;
      rtcDeviceFound, hpetDeviceFound := false, false;
      orig, pos, eof, patched := [], 0, false, [];
    }

    method OpenFiles(file: seq<string>)
      modifies `orig, `pos, `eof, `patched
      ensures Valid() && orig == file && pos == 0 && !eof && patched == [] && Rest() == file
    {
      orig, pos, eof, patched := file, 0, false, [];
    }

    /** `fgets`: at end of file the buffer stays as it is. */
    method Gets() returns (read: bool)
      requires Valid()
      modifies `buffer, `pos, `eof
      ensures Valid()
      ensures Reader(Rest(), buffer) == old(Reader(Rest(), buffer)).Gets()
      ensures read <==> old(Rest()) != []
      ensures if read then pos == old(pos) + 1 && eof == old(eof) else pos == old(pos) && eof
    {
      read := pos < |orig|;
      if read {
        buffer, pos := orig[pos], pos + 1;
      } else {
        eof := true;
      }
    }

    method Print(line: string)
      modifies `patched
      ensures patched == old(patched) + [line]
    {
      patched := patched + [line];
    }

    method FoundRtcDevice() returns (r: bool)
      modifies `rtcDeviceFound, `openBrackets
      ensures r <==> RtcPass.IsRtc(buffer, old(rtcDeviceFound))
      ensures rtcDeviceFound == (old(rtcDeviceFound) || r)
      ensures openBrackets == if r then RtcPass.DepthAfterRtc(buffer, old(openBrackets)) else old(openBrackets)
    {
      var byName := CmpStr(buffer, RtcPass.RTC_DEVICE);
      if byName {
        rtcDeviceFound := true;
        return true;
      }
      var byId := CmpStr(buffer, RtcPass.RTC_DEVICE_2);
      if byId && !rtcDeviceFound {
        rtcDeviceFound := true;
        openBrackets := openBrackets + 1;
        return true;
      }
      return false;
    }

    method FoundHpetDevice() returns (r: bool)
      modifies `hpetDeviceFound, `openBrackets
      ensures r <==> HpetPass.IsHpet(buffer, old(hpetDeviceFound))
      ensures hpetDeviceFound == (old(hpetDeviceFound) || r)
      ensures openBrackets == old(openBrackets) + if r then HpetPass.DepthAfterHpet(buffer) else 0
    {
      var byName := CmpStr(buffer, HPET_DEVICE);
      if byName {
        hpetDeviceFound := true;
        return true;
      }
      var byId := CmpStr(buffer, HPET_DEVICE_2);
      if byId && !hpetDeviceFound {
        hpetDeviceFound := true;
        openBrackets := openBrackets + 1;
        return true;
      }
      return false;
    }

    /** Two `if`s: one up for an opening brace, one down for a closing one. */
    method CountBraces()
      modifies `openBrackets
      ensures openBrackets == old(openBrackets) + Delta(buffer)
    {
      var opening := CmpStr(buffer, "{");
      if opening {
        openBrackets := openBrackets + 1;
      }
      var closing := CmpStr(buffer, "}");
      if closing {
        openBrackets := openBrackets - 1;
      }
    }

    // ----- patchRTC -----

    /** The loop over one RTC device. */
    method ScanRtcDevice()
      requires Valid() && RtcPass.DeviceLoop(Rest(), buffer, openBrackets).Some?
      modifies `buffer, `pos, `eof, `openBrackets, `patched
      ensures Valid() && pos >= old(pos)
      ensures var b := old(RtcPass.DeviceLoop(Rest(), buffer, openBrackets).value);
              && patched == old(patched) + b.written && buffer == b.buffer
              && Rest() == b.rest && openBrackets == b.depth
    {
      hide Contains, Delta, RtcPass.Pass, RtcPass.DeviceLoop, RtcPass.IsRtc, RtcPass.DepthAfterRtc;
      ghost var r, b := Reader(Rest(), buffer), RtcPass.DeviceLoop(Rest(), buffer, openBrackets).value;
      ghost var todo := b.written;
      while true
        invariant Valid() && pos >= old(pos) && r == Reader(Rest(), buffer)
        invariant RtcPass.DeviceLoop(r.rest, r.buffer, openBrackets) == Some(b.(written := todo))
        invariant patched + todo == old(patched) + b.written
        decreases |r.rest|, Abs(openBrackets)
      {
        RtcPass.DeviceLoopStep(r, openBrackets);
        var read := Gets();
        r := r.Gets();
        CountBraces();
        if openBrackets == 0 {
          break;
        }
        var irq := CmpStr(buffer, IRQ);
        if irq {
          read := Gets();
          read := Gets();
          break;
        }
        if openBrackets != 0 {
          todo := RtcPass.DeviceLoop(r.rest, r.buffer, openBrackets).value.written;
          Regroup(patched, [buffer], todo);
          Print(buffer);
        }
      }
    }

    /** What the pass does with the line just read. */
    method RtcLine()
      requires Valid() && RtcPass.Pass([buffer] + Rest(), rtcDeviceFound, openBrackets).Some?
      modifies `buffer, `pos, `eof, `openBrackets, `patched, `rtcDeviceFound
      ensures Valid() && |Rest()| <= old(|Rest()|)
      ensures var more := RtcPass.Pass(Rest(), rtcDeviceFound, openBrackets);
              more.Some? && patched + more.value
                         == old(patched + RtcPass.Pass([buffer] + Rest(), rtcDeviceFound, openBrackets).value)
    {
      hide Contains, Delta, RtcPass.Pass, RtcPass.DeviceLoop, RtcPass.IsRtc, RtcPass.DepthAfterRtc;
      ghost var rest := [buffer] + Rest();
      RtcPass.PassStep(rest, rtcDeviceFound, openBrackets);
      assert rest[1..] == Rest();
      var found := FoundRtcDevice();
      if found {
        Print(buffer);
        ScanRtcDevice();
      }
      Print(buffer);
    }

    method PatchRtc(file: seq<string>)
      requires RtcPass.Pass(file, rtcDeviceFound, 0).Some?
      modifies this
      ensures patched == old(RtcPass.Pass(file, rtcDeviceFound, 0)).value
    {
      hide Contains, RtcPass.Pass;
      OpenFiles(file);
      openBrackets := 0;
      ghost var todo := RtcPass.Pass(file, rtcDeviceFound, 0).value;
      while !eof
        invariant Valid()
        invariant RtcPass.Pass(Rest(), rtcDeviceFound, openBrackets) == Some(todo)
        invariant patched + todo == old(RtcPass.Pass(file, rtcDeviceFound, 0)).value
        decreases |Rest()|, if eof then 0 else 1
      {
        ghost var rest := Rest();
        var read := Gets();
        if read {
          assert rest == [buffer] + Rest();
          RtcLine();
          todo := RtcPass.Pass(Rest(), rtcDeviceFound, openBrackets).value;
        }
      }
      RtcPass.PassStep([], rtcDeviceFound, openBrackets);
    }

    // ----- patchHPET -----

    /** The IRQ pairs at the head of a resource template. */
    method SkipIrqs()
      requires Valid() && HpetPass.SkipIrqs(Reader(Rest(), buffer)).Some?
      modifies `buffer, `pos, `eof
      ensures Valid()
      ensures Reader(Rest(), buffer) == old(HpetPass.SkipIrqs(Reader(Rest(), buffer))).value
    {
      hide Contains;
      ghost var r := Reader(Rest(), buffer);
      var irq := CmpStr(buffer, IRQ);
      while irq
        invariant Valid() && r == Reader(Rest(), buffer)
        invariant irq <==> Contains(buffer, IRQ)
        invariant HpetPass.SkipIrqs(r) == old(HpetPass.SkipIrqs(Reader(Rest(), buffer)))
        decreases |r.rest|
      {
        var read := Gets();
        read := Gets();
        r := r.Gets().Gets();
        irq := CmpStr(buffer, IRQ);
      }
    }

    /** A template line is in the buffer: it and the next are written, and the IRQs. */
    method OpenTemplate()
      requires Valid() && HpetPass.Template(Rest(), buffer).Some?
      modifies `buffer, `pos, `eof, `patched
      ensures Valid()
      ensures var opening := old(HpetPass.Template(Rest(), buffer).value);
              patched == old(patched) + opening.written && Reader(Rest(), buffer) == opening.next
    {
      hide Contains, HpetPass.SkipIrqs, HpetIrqs;
      Print(buffer);
      var read := Gets();
      Print(buffer);
      patched := patched + HpetIrqs();
      read := Gets();
      SkipIrqs();
      Print(buffer);
    }

    /** The loop over one HPET device. */
    method ScanHpetDevice()
      requires Valid() && HpetPass.DeviceLoop(Rest(), buffer, openBrackets).Some?
      modifies `buffer, `pos, `eof, `openBrackets, `patched
      ensures Valid()
      ensures var b := old(HpetPass.DeviceLoop(Rest(), buffer, openBrackets).value);
              && patched == old(patched) + b.written && buffer == b.buffer
              && Rest() == b.rest && openBrackets == b.depth
    {
      hide Contains, DeltaElse, HpetPass.DeviceLoop, HpetPass.Template;
      ghost var r, b := Reader(Rest(), buffer), HpetPass.DeviceLoop(Rest(), buffer, openBrackets).value;
      ghost var todo := b.written;
      while true
        invariant Valid() && r == Reader(Rest(), buffer)
        invariant HpetPass.DeviceLoop(r.rest, r.buffer, openBrackets) == Some(b.(written := todo))
        invariant patched + todo == old(patched) + b.written
        decreases |r.rest|, Abs(openBrackets)
      {
        HpetPass.DeviceLoopStep(r, openBrackets);
        var read := Gets();
        r := r.Gets();
        CountBracesElse();
        if openBrackets == 0 {
          break;
        }
        var template := CmpStr(buffer, RESOURCE_TEMPLATE);
        if template {
          ghost var opening, was := HpetPass.Template(r.rest, r.buffer).value, patched;
          OpenTemplate();
          openBrackets := 0;
          r := opening.next;
          todo := HpetPass.DeviceLoop(r.rest, r.buffer, 0).value.written;
          Regroup(was, opening.written, todo);
        }
        if openBrackets != 0 {
          todo := HpetPass.DeviceLoop(r.rest, r.buffer, openBrackets).value.written;
          Regroup(patched, [buffer], todo);
          Print(buffer);
        }
      }
    }

    /** `else if`: a line with both braces counts one up. */
    method CountBracesElse()
      modifies `openBrackets
      ensures openBrackets == old(openBrackets) + DeltaElse(buffer)
    {
      var opening := CmpStr(buffer, "{");
      if opening {
        openBrackets := openBrackets + 1;
      } else {
        var closing := CmpStr(buffer, "}");
        if closing {
          openBrackets := openBrackets - 1;
        }
      }
    }

    /** The loop that copies the block of the RTC device. */
    method CopyBlock()
      requires Valid() && BlockLoop(Rest(), buffer, openBrackets).Some?
      modifies `buffer, `pos, `eof, `openBrackets, `patched
      ensures Valid()
      ensures var b := old(BlockLoop(Rest(), buffer, openBrackets).value);
              && patched == old(patched) + b.written && buffer == b.buffer
              && Rest() == b.rest && openBrackets == 0
    {
      hide Contains, Delta, BlockLoop;
      ghost var r, b := Reader(Rest(), buffer), BlockLoop(Rest(), buffer, openBrackets).value;
      ghost var todo := b.written;
      while true
        invariant Valid() && r == Reader(Rest(), buffer)
        invariant BlockLoop(r.rest, r.buffer, openBrackets) == Some(b.(written := todo))
        invariant patched + todo == old(patched) + b.written
        decreases |r.rest|, Abs(openBrackets)
      {
        BlockLoopStep(r, openBrackets);
        var read := Gets();
        r := r.Gets();
        CountBraces();
        Print(buffer);
        todo := todo[1..];
        if openBrackets == 0 {
          break;
        }
      }
    }

    /** What the pass over HPET devices does with the line just read. */
    method HpetLine()
      requires Valid() && openBrackets == 0
      requires HpetPass.Pass([buffer] + Rest(), hpetDeviceFound).Some?
      modifies `buffer, `pos, `eof, `openBrackets, `patched, `hpetDeviceFound
      ensures Valid() && openBrackets == 0 && |Rest()| <= old(|Rest()|)
      ensures hpetDeviceFound <==> old(hpetDeviceFound) || HpetInsert.Marked(old(buffer))
      ensures !hpetDeviceFound ==> pos == old(pos)
      ensures var more := HpetPass.Pass(Rest(), hpetDeviceFound);
              more.Some? && patched + more.value == old(patched + HpetPass.Pass([buffer] + Rest(), hpetDeviceFound).value)
    {
      hide Contains, HpetPass.Pass, HpetPass.DeviceLoop, HpetPass.DepthAfterHpet;
      ghost var rest := [buffer] + Rest();
      HpetPass.PassStep(rest, hpetDeviceFound);
      assert rest[1..] == Rest();
      var found := FoundHpetDevice();
      if found {
        Print(buffer);
        ScanHpetDevice();
      }
      Print(buffer);
    }

    /** The pass over HPET devices. */
    method PatchHpetDevices(file: seq<string>)
      requires HpetPass.Pass(file, hpetDeviceFound).Some?
      modifies this
      ensures patched == old(HpetPass.Pass(file, hpetDeviceFound)).value
      ensures hpetDeviceFound <==> old(hpetDeviceFound) || HpetInsert.HasHpet(file)
    {
      hide Contains, HpetPass.Pass, HpetPass.IsHpet;
      OpenFiles(file);
      openBrackets := 0;
      ghost var todo := HpetPass.Pass(file, hpetDeviceFound).value;
      while !eof
        invariant Valid() && openBrackets == 0 && orig == file
        invariant HpetPass.Pass(Rest(), hpetDeviceFound) == Some(todo)
        invariant patched + todo == old(HpetPass.Pass(file, hpetDeviceFound)).value
        invariant old(hpetDeviceFound) ==> hpetDeviceFound
        invariant hpetDeviceFound ==> old(hpetDeviceFound) || HpetInsert.HasHpet(file)
        invariant !hpetDeviceFound ==> forall i :: 0 <= i < pos ==> !HpetInsert.Marked(file[i])
        decreases |Rest()|, if eof then 0 else 1
      {
        ghost var rest := Rest();
        var read := Gets();
        if read {
          assert buffer == file[pos - 1] && rest == [buffer] + Rest();
          HpetLine();
          todo := HpetPass.Pass(Rest(), hpetDeviceFound).value;
        }
      }
      HpetPass.PassStep([], hpetDeviceFound);
    }

    /** What the insertion pass does with the line just read. */
    method InsertLine(written: bool) returns (now: bool)
      requires Valid() && openBrackets == 0
      requires HpetInsert.Insert([buffer] + Rest(), rtcDeviceFound, written).Some?
      modifies `buffer, `pos, `eof, `openBrackets, `patched, `rtcDeviceFound
      ensures Valid() && openBrackets == 0 && |Rest()| <= old(|Rest()|)
      ensures var more := HpetInsert.Insert(Rest(), rtcDeviceFound, now);
              more.Some? && patched + more.value
                         == old(patched + HpetInsert.Insert([buffer] + Rest(), rtcDeviceFound, written).value)
    {
      hide Contains, HpetInsert.Insert, BlockLoop, RtcPass.DepthAfterRtc, RtcPass.IsRtc, FixedHpet;
      ghost var rest, was, copied := [buffer] + Rest(), patched, [];
      HpetInsert.InsertStep(rest, rtcDeviceFound, written);
      assert rest[1..] == Rest();
      now := written;
      var found := FoundRtcDevice();
      if found {
        copied := [buffer] + BlockLoop(Rest(), buffer, openBrackets).value.written + if now then [] else FixedHpet();
        Print(buffer);
        CopyBlock();
        if !now {
          patched := patched + FixedHpet();
          now := true;
          var read := Gets();
        }
      }
      assert patched == was + copied;
      Print(buffer);
      Regroup(was, copied, [buffer]);
      Regroup(was, copied + [buffer], HpetInsert.Insert(Rest(), rtcDeviceFound, now).value);
    }

    /** The pass that adds an HPET device after the RTC device. */
    method AddHpetDevice(file: seq<string>)
      requires HpetInsert.Insert(file, false, false).Some?
      modifies this
      ensures patched == HpetInsert.Insert(file, false, false).value
    {
      hide Contains, HpetInsert.Insert;
      OpenFiles(file);
      openBrackets := 0;
      var written := false;
      rtcDeviceFound := false;
      ghost var todo := HpetInsert.Insert(file, false, false).value;
      while !eof
        invariant Valid() && openBrackets == 0
        invariant HpetInsert.Insert(Rest(), rtcDeviceFound, written) == Some(todo)
        invariant patched + todo == HpetInsert.Insert(file, false, false).value
        decreases |Rest()|, if eof then 0 else 1
      {
        ghost var rest := Rest();
        var read := Gets();
        if read {
          assert rest == [buffer] + Rest();
          written := InsertLine(written);
          todo := HpetInsert.Insert(Rest(), rtcDeviceFound, written).value;
        }
      }
      HpetInsert.InsertStep([], rtcDeviceFound, written);
    }

    method PatchHpet(file: seq<string>)
      requires !hpetDeviceFound && HpetInsert.Patch(file).Some?
      modifies this
      ensures patched == HpetInsert.Patch(file).value
    {
      PatchHpetDevices(file);
      if !hpetDeviceFound {
        AddHpetDevice(file);
      }
    }

    // ----- the config-driven block replacement -----

    /** The loop that drops a block. */
    method DropBlock()
      requires Valid() && BlockLoop(Rest(), buffer, openBrackets).Some?
      modifies `buffer, `pos, `eof, `openBrackets
      ensures Valid()
      ensures var b := old(BlockLoop(Rest(), buffer, openBrackets).value);
              buffer == b.buffer && Rest() == b.rest && openBrackets == 0
    {
      hide Contains, Delta, BlockLoop;
      ghost var r, b := Reader(Rest(), buffer), BlockLoop(Rest(), buffer, openBrackets).value;
      ghost var todo := b.written;
      while true
        invariant Valid() && r == Reader(Rest(), buffer)
        invariant BlockLoop(r.rest, r.buffer, openBrackets) == Some(b.(written := todo))
        decreases |r.rest|, Abs(openBrackets)
      {
        BlockLoopStep(r, openBrackets);
        var read := Gets();
        r := r.Gets();
        CountBraces();
        todo := todo[1..];
        if openBrackets == 0 {
          break;
        }
      }
    }

    /** The patch file goes through the same line buffer. */
    method CopyPatch(patch: seq<string>)
      modifies `buffer, `patched
      ensures patched == old(patched) + patch
      ensures buffer == ConfigPass.BufferAfter(patch, old(buffer))
    {
      for i := 0 to |patch|
        invariant patched == old(patched) + patch[..i]
        invariant buffer == ConfigPass.BufferAfter(patch[..i], old(buffer))
      {
        buffer := patch[i];
        Print(buffer);
      }
      assert patch[..|patch|] == patch;
    }

    /** What the pass does with the line just read; `ended` when the patch file is missing. */
    method ConfigLine(search: string, patch: Option<seq<string>>, patching: bool) returns (now: bool, ended: bool)
      requires Valid() && openBrackets == 0
      requires ConfigPass.Remaining([buffer] + Rest(), search, patch, patching).Some?
      modifies `buffer, `pos, `eof, `openBrackets, `patched
      ensures Valid() && openBrackets == 0 && |Rest()| <= old(|Rest()|)
      ensures ended ==> old(ConfigPass.Remaining([buffer] + Rest(), search, patch, patching)) == Some(ConfigPass.NoPatchFile)
      ensures !ended ==>
                var more := ConfigPass.Remaining(Rest(), search, patch, now);
                more.Some? && ConfigPass.After(patched, more.value)
                == old(ConfigPass.After(patched, ConfigPass.Remaining([buffer] + Rest(), search, patch, patching).value))
    {
      hide Contains, Delta, BlockLoop, ConfigPass.Pass, ConfigPass.BufferAfter, ConfigPass.After;
      ghost var rest, was := [buffer] + Rest(), patched;
      if patching {
        ConfigPass.PassStep(rest, search, patch);
      }
      assert rest[1..] == Rest();
      now, ended := patching, false;
      var found := CmpStr(buffer, search);
      if found {
        if now {
          ghost var size := |Rest()|;
          ConfigPass.BlockShrinks(Rest(), buffer);
          DropBlock();
          if patch.None? {
            ended := true;
            return;
          }
          CopyPatch(patch.value);
          now := false;
          var read := Gets();
        }
      }
      Print(buffer);
      if found && patching {
        ConfigPass.ReplacedAfter(was, patch.value, [buffer], Rest());
      } else {
        ConfigPass.AfterMore(was, [buffer], ConfigPass.Remaining(Rest(), search, patch, now).value);
        ConfigPass.AfterReplaced([buffer], Rest());
      }
    }

    /** One entry of the config file.  The program ends when the patch file is missing. */
    method PatchFromConfig(file: seq<string>, search: string, patch: Option<seq<string>>)
      returns (outcome: ConfigPass.Outcome)
      requires ConfigPass.Pass(file, search, patch).Some?
      modifies this
      ensures Some(outcome) == ConfigPass.Pass(file, search, patch)
    {
      hide Contains, ConfigPass.Pass;
      OpenFiles(file);
      openBrackets := 0;
      var patching := true;
      ghost var todo := ConfigPass.Pass(file, search, patch).value;
      ConfigPass.AfterNothing(todo);
      while !eof
        invariant Valid() && openBrackets == 0
        invariant ConfigPass.Remaining(Rest(), search, patch, patching) == Some(todo)
        invariant Some(ConfigPass.After(patched, todo)) == ConfigPass.Pass(file, search, patch)
        decreases |Rest()|, if eof then 0 else 1
      {
        ghost var rest := Rest();
        var read := Gets();
        if read {
          assert rest == [buffer] + Rest();
          var ended;
          patching, ended := ConfigLine(search, patch, patching);
          if ended {
            return ConfigPass.NoPatchFile;
          }
          todo := ConfigPass.Remaining(Rest(), search, patch, patching).value;
        }
      }
      if patching {
        ConfigPass.PassStep([], search, patch);
        assert patched + [] == patched;
        return ConfigPass.Unmatched(patched);
      }
      assert patched + [] == patched;
      return ConfigPass.Replaced(patched);
    }

    // ----- patchVersion -----

    /** The byte loop, for the system chosen; the file is kept for Darwin. */
    method PatchVersion(v: int, inbuf: string) returns (outbuf: string)
      ensures outbuf == match VersionPass.ReplaceFrom(v)
                        case Some(from) => VersionPass.Emulate(inbuf, from)
                        case None => inbuf
    {
      if VersionPass.ReplaceFrom(v).None? {
        return inbuf;
      }
      var from := VersionPass.ReplaceFrom(v).value;
      VersionPass.FromShape(v);
      outbuf := ReplaceAll(inbuf, from, VersionPass.ReplaceTo(from));
    }

    static method ReplaceAll(inbuf: string, replfrom: string, replto: string) returns (outbuf: string)
      requires replfrom != ""
      ensures outbuf == Replace.Subst(inbuf, replfrom, replto, 1)
    {
      hide Replace.Subst;
      var inptr := 0;
      outbuf := "";
      ghost var todo := Replace.Subst(inbuf, replfrom, replto, 1);
      assert inbuf[0..] == inbuf;
      while inptr < |inbuf| - |replfrom|
        invariant 0 <= inptr <= |inbuf|
        invariant todo == Replace.Subst(inbuf[inptr..], replfrom, replto, 1)
        invariant outbuf + todo == Replace.Subst(inbuf, replfrom, replto, 1)
      {
        Replace.SubstStep(inbuf, inptr, replfrom, replto, 1);
        if !(replfrom <= inbuf[inptr..]) {
          outbuf := outbuf + [inbuf[inptr]];
          inptr := inptr + 1;
          todo := todo[1..];
          continue;
        }
        outbuf := outbuf + replto;
        inptr := inptr + |replfrom|;
        todo := todo[|replto|..];
      }
      Replace.ShortIsCopied(inbuf[inptr..], replfrom, replto);
      outbuf := outbuf + inbuf[inptr..];
    }

    // ----- patchVarious -----

    /** Whether no line of the open file contains `prefix`; the file is rewound. */
    method IsFree(prefix: string) returns (free: bool)
      requires Valid() && pos == 0 && !eof
      modifies `buffer, `pos, `eof
      ensures Valid() && pos == 0 && !eof
      ensures free <==> forall i :: 0 <= i < |orig| ==> !Contains(orig[i], prefix)
    {
      hide Contains;
      free := true;
      while !eof
        invariant Valid() && free
        invariant forall i :: 0 <= i < pos ==> !Contains(orig[i], prefix)
        decreases |orig| - pos, if eof then 0 else 1
      {
        ghost var rest := Rest();
        var read := Gets();
        if read {
          assert buffer == rest[0] == orig[pos - 1];
          var used := CmpStr(buffer, prefix);
          if used {
            free := false;
            break;
          }
        }
      }
      pos, eof := 0, false;
    }

    /** The least number whose prefix occurs in no line; the file has room for it. */
    method FindFreePrefix() returns (k: nat)
      requires Valid() && pos == 0 && !eof
      modifies `buffer, `pos, `eof
      ensures Valid() && pos == 0 && !eof
      ensures !FreshPrefix.Used(orig, k) && forall j :: 0 <= j < k ==> FreshPrefix.Used(orig, j)
      ensures 3 * k <= FreshPrefix.TotalLength(orig)
    {
      k := 0;
      while true
        invariant Valid() && pos == 0 && !eof
        invariant forall j :: 0 <= j < k ==> FreshPrefix.Used(orig, j)
        invariant 3 * k <= FreshPrefix.TotalLength(orig)
        decreases FreshPrefix.TotalLength(orig) - 3 * k
      {
        var free := IsFree(FreshPrefix.Prefix(k));
        if free {
          return;
        }
        FreshPrefix.SearchIsBounded(orig, k + 1);
        k := k + 1;
      }
    }

    /** `strcpy(&tmp[at], s)`, with the terminator that it writes. */
    static method StrCpy(tmp: array<char>, at: nat, s: string)
      requires at + |s| < tmp.Length
      modifies tmp
      ensures tmp[..at + |s|] == old(tmp[..at]) + s
    {
      ghost var was := tmp[..at];
      forall j | 0 <= j < |s| {
        tmp[at + j] := s[j];
      }
      tmp[at + |s|] := '\0';
      assert tmp[..at + |s|] == was + s;
    }

    /** The `_T_` rewrite of one line through an allocated character buffer: every write
        is inside it, and `n` is the number of characters written. */
    static method RenameLine(line: string, k: nat) returns (tmp: array<char>, n: nat)
      requires k < 0x8000_0000
      ensures fresh(tmp) && tmp.Length == 5 * |line| + 10
      ensures n == |line| + Replace.Hits(line, FreshPrefix.TEMPORARY, 0) * (|FreshPrefix.Prefix(k)| - 3) + 2
      ensures n <= tmp.Length && tmp[..n] == FreshPrefix.Rename(line, k) + ['\0', '\0']
    {
      hide FreshPrefix.Prefix, Replace.Subst, Replace.Hits;
      var prefix := FreshPrefix.Prefix(k);
      ghost var all := FreshPrefix.Rename(line, k);
      assert |all| <= 5 * |line| by { FreshPrefix.RenameFits(line, k); }
      tmp := new char[5 * |line| + 10];
      var i, ptr := 0, 0;
      ghost var todo := all;
      assert line[0..] == line;
      while i < |line|
        invariant 0 <= i <= |line| && 0 <= ptr
        invariant todo == FreshPrefix.Rename(line[i..], k)
        invariant ptr + |todo| == |all| && tmp[..ptr] + todo == all
      {
        Replace.SubstStep(line, i, FreshPrefix.TEMPORARY, prefix, 0);
        ghost var was := tmp[..ptr];
        if FreshPrefix.TEMPORARY <= line[i..] {
          todo := FreshPrefix.Rename(line[i + 3..], k);
          Regroup(was, prefix, todo);
          StrCpy(tmp, ptr, prefix);
          ptr := ptr + |prefix|;
          i := i + 3;
        } else {
          todo := FreshPrefix.Rename(line[i + 1..], k);
          Regroup(was, [line[i]], todo);
          tmp[ptr] := line[i];
          assert tmp[..ptr + 1] == was + [line[i]];
          ptr := ptr + 1;
          i := i + 1;
        }
      }
      Replace.SubstStep(line, i, FreshPrefix.TEMPORARY, prefix, 0);
      tmp[ptr] := '\0';
      tmp[ptr + 1] := '\0';
      n := ptr + 2;
      FreshPrefix.RenameFits(line, k);
    }

    /** The fixes that come after the processor test. */
    method WriteFixed(k: nat)
      requires k < 0x8000_0000
      modifies `patched
      ensures patched == old(patched) + [VariousPass.Fix(buffer, k)]
    {
      hide Contains, WildAt;
      var local0 := CmpStr(buffer, VariousPass.LOCAL0);
      if local0 {
        Print(VariousPass.LOCAL0_FIX);
        return;
      }
      var temporary := CmpStr(buffer, FreshPrefix.TEMPORARY);
      if temporary {
        var tmp, n := RenameLine(buffer, k);
        FreshPrefix.RenameFits(buffer, k);
        assert tmp[..n][..n - 2] == tmp[..n - 2];
        Print(tmp[..n - 2]);
        return;
      }
      var mute := CmpStrWild(buffer, VariousPass.MUTE);
      var muteFixed := CmpStr(buffer, VariousPass.MUTE_FIX);
      if mute && !muteFixed {
        Print(VariousPass.MUTE_FIX);
        return;
      }
      Print(buffer);
    }

    /** What `patchVarious` does with the line just read. */
    method VariousLine(k: nat)
      requires Valid() && k < 0x8000_0000 && VariousPass.Pass([buffer] + Rest(), k).Some?
      modifies `buffer, `pos, `eof, `patched
      ensures Valid() && |Rest()| <= old(|Rest()|)
      ensures var more := VariousPass.Pass(Rest(), k);
              more.Some? && patched + more.value == old(patched + VariousPass.Pass([buffer] + Rest(), k).value)
    {
      hide Contains, VariousPass.Pass, VariousPass.Fix, VariousPass.WithoutFirst;
      ghost var rest := [buffer] + Rest();
      VariousPass.PassStep(rest, k);
      assert rest[1..] == Rest();
      var star := CmpStr(buffer, VariousPass.STAR_NAME);
      if star {
        Print(VariousPass.WithoutFirst(buffer, '*'));
        return;
      }
      var processor := CmpStr(buffer, VariousPass.PROCESSOR);
      if processor {
        Print(buffer);
        var read := Gets();
      }
      WriteFixed(k);
    }

    /** `patchVarious`, and the prefix number that it chose. */
    method PatchVarious(file: seq<string>) returns (k: nat)
      requires VariousPass.AliasFree(file) && FreshPrefix.TotalLength(file) < 0x8000_0000
      modifies this
      ensures !FreshPrefix.Used(file, k) && forall j :: 0 <= j < k ==> FreshPrefix.Used(file, j)
      ensures Some(patched) == VariousPass.Pass(file, k)
    {
      hide Contains, VariousPass.Pass;
      OpenFiles(file);
      k := FindFreePrefix();
      VariousPass.AliasFreeMeansDone(file, k);
      ghost var todo := VariousPass.Pass(file, k).value;
      assert patched + todo == todo;
      while !eof
        invariant Valid()
        invariant VariousPass.Pass(Rest(), k) == Some(todo)
        invariant Some(patched + todo) == VariousPass.Pass(file, k)
        decreases |Rest()|, if eof then 0 else 1
      {
        ghost var rest := Rest();
        var read := Gets();
        if read {
          assert rest == [buffer] + Rest();
          VariousLine(k);
          todo := VariousPass.Pass(Rest(), k).value;
        }
      }
      VariousPass.PassStep([], k);
      assert patched + [] == patched;
    }
  }
}
