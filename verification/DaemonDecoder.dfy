/** The daemon's decoder: a fixed buffer, a cursor and a start time, changed in place on every scancode. */
module DaemonDecoder {
  import opened Bytes
  import opened CrcAlgebra
  import opened Link

  // ---------------------------------------------------------------- the clock

  /** CLOCK_MONOTONIC as the kernel reports it. */
  datatype Timespec = Timespec(sec: int, nsec: int) {
    ghost predicate Valid() {
      0 <= nsec < 1_000_000_000
    }

    function Nanos(): int {
      sec * 1_000_000_000 + nsec
    }
  }

  const TIMEOUT_SEC := 30

  /** Whole seconds elapsed, with a borrow when the nanoseconds run backwards. */
  function ElapsedSeconds(start: Timespec, now: Timespec): int {
    var elapsed := now.sec - start.sec;
    if now.nsec < start.nsec then elapsed - 1 else elapsed
  }

  /** The borrow makes the comparison in seconds exact to the nanosecond. */
  lemma BorrowIsExact(start: Timespec, now: Timespec)
    requires start.Valid() && now.Valid()
    ensures ElapsedSeconds(start, now) >= TIMEOUT_SEC <==> Late(start.Nanos(), now.Nanos())
  {}

  // ---------------------------------------------------------------- the decoder

  class WfrDecoder {
    const payloadBuf: array<byte>
    var expectedLen: byte
    var writeCursor: byte
    var currentPass: byte
    var inTransmission: bool
    var startTime: Timespec

    ghost predicate Valid()
      reads this
    {
      && payloadBuf.Length == OUT_SIZE
      && writeCursor <= expectedLen
      && (inTransmission ==> expectedLen > 0)
      && startTime.Valid()
    }

    /** What the fields mean: the octets of the current pass are those below the cursor. */
    ghost function View(): (link: Link<int>)
      requires Valid()
      reads this, payloadBuf
      ensures WellFormed(link)
    {
      if inTransmission then Receiving(expectedLen, payloadBuf[..writeCursor], startTime.Nanos()) else Idle
    }

    constructor ()
      ensures Valid() && fresh(payloadBuf) && View() == Idle
    {
      payloadBuf := new byte[OUT_SIZE](_ => 0);
      expectedLen, writeCursor, currentPass, inTransmission := 0, 0, 0, false;
      startTime := Timespec(0, 0);
    }

    /** memset to zero. */
    method Reset()
      requires Valid()
      modifies this, payloadBuf
      ensures Valid() && View() == Idle
      ensures writeCursor == 0 && currentPass == 0
    {
      forall i | 0 <= i < payloadBuf.Length { payloadBuf[i] := 0; }
      expectedLen, writeCursor, currentPass, inTransmission := 0, 0, 0, false;
      startTime := Timespec(0, 0);
    }

    method CheckTimeout(now: Timespec) returns (expired: bool)
      requires Valid() && now.Valid()
      modifies this, payloadBuf
      ensures Valid()
      ensures expired <==> old(inTransmission && Late(startTime.Nanos(), now.Nanos()))
      ensures View() == if expired then Idle else old(View())
      ensures expired ==> currentPass == 0
      ensures !expired ==> unchanged(this) && unchanged(payloadBuf)
    {
      if !inTransmission {
        return false;
      }
      BorrowIsExact(startTime, now);
      if ElapsedSeconds(startTime, now) >= TIMEOUT_SEC {
        Reset();
        return true;
      }
      return false;
    }

    method OnStart(now: Timespec, len: byte, pass: byte) returns (result: int)
      requires Valid() && now.Valid()
      modifies this, payloadBuf
      ensures Valid()
      ensures len == 0 ==> result == -1 && unchanged(this) && unchanged(payloadBuf)
      ensures len != 0 ==> result == 0 && View() == Receiving(len, [], now.Nanos()) && currentPass == pass
    {
      if len == 0 {
        return -1;
      }
      if inTransmission && expectedLen == len {
        writeCursor, currentPass, startTime := 0, pass, now;
        return 0;
      }
      Reset();
      expectedLen, currentPass, inTransmission, startTime := len, pass, true, now;
      return 0;
    }

    method OnData(command: byte)
      requires Valid()
      modifies this`writeCursor, payloadBuf
      ensures Valid()
      ensures View() == Accept(old(View()), 0, Frame(Address(Data, 0), command), 0).0
    {
      if !inTransmission || writeCursor >= expectedLen {
        return;
      }
      payloadBuf[writeCursor] := command;
      writeCursor := writeCursor + 1;
      assert payloadBuf[..writeCursor] == old(payloadBuf[..writeCursor]) + [command];
    }

    method OnEnd(command: byte, out: array<byte>) returns (result: int)
      requires Valid() && out != payloadBuf
      modifies this, payloadBuf, out
      ensures Valid()
      ensures var step := Accept(old(View()), 0, Frame(Address(End, 0), command), out.Length);
              View() == step.0 && Reports(step.1, result, old(out[..]), out)
      ensures currentPass == if old(inTransmission) && !inTransmission then 0 else old(currentPass)
    {
      if !inTransmission || writeCursor != expectedLen {
        return 0;
      }
      var computed := ComputeCrc8(payloadBuf, expectedLen);
      result := OnComplete(command == computed, out);
    }

    method OnComplete(holds: bool, out: array<byte>) returns (result: int)
      requires Valid() && out != payloadBuf && inTransmission && writeCursor == expectedLen
      modifies this, payloadBuf, out
      ensures Valid()
      ensures var step := Conclude(old(View()), holds, out.Length);
              View() == step.0 && Reports(step.1, result, old(out[..]), out)
      ensures currentPass == if inTransmission then old(currentPass) else 0
    {
      if !holds {
        writeCursor := 0;
        return 0;
      }
      if expectedLen >= out.Length {
        Reset();
        return -1;
      }
      result := HandOver(out);
    }

    /** memcpy to the caller, terminate, and start afresh. */
    method HandOver(out: array<byte>) returns (result: nat)
      requires Valid() && out != payloadBuf && writeCursor == expectedLen < out.Length
      modifies this, payloadBuf, out
      ensures Valid() && View() == Idle
      ensures currentPass == 0
      ensures result == old(expectedLen) && out[..result] == old(payloadBuf[..writeCursor]) && out[result] == 0
    {
      forall i | 0 <= i < expectedLen { out[i] := payloadBuf[i]; }
      out[expectedLen] := 0;
      result := expectedLen;
      assert out[..result] == old(payloadBuf[..writeCursor]);
      Reset();
    }

    /** Feed one scancode: the link takes exactly one step, and the caller's buffer holds the payload and
        its terminator exactly when the link delivers. */
    method FeedScancode(now: Timespec, address: byte, command: byte, out: array<byte>) returns (result: int)
      requires Valid() && now.Valid() && out != payloadBuf
      modifies this, payloadBuf, out
      ensures Valid()
      ensures var step := Feed(old(View()), old(Late(startTime.Nanos(), now.Nanos())), now.Nanos(),
                               Frame(address, command), out.Length);
              View() == step.0 && Reports(step.1, result, old(out[..]), out)
      ensures currentPass == PassAfter(old(currentPass), old(inTransmission), inTransmission, Frame(address, command))
    {
      var expired := CheckTimeout(now);
      if expired {
        return -1;
      }
      result := OnFrame(now, address, command, out);
    }

    method OnFrame(now: Timespec, address: byte, command: byte, out: array<byte>) returns (result: int)
      requires Valid() && now.Valid() && out != payloadBuf
      modifies this, payloadBuf, out
      ensures Valid()
      ensures var step := Accept(old(View()), now.Nanos(), Frame(address, command), out.Length);
              View() == step.0 && Reports(step.1, result, old(out[..]), out)
      ensures currentPass == PassAfter(old(currentPass), old(inTransmission), inTransmission, Frame(address, command))
    {
      if address / 16 != 0xA {
        return 0;
      }
      var frameType, pass := address / 4 % 4, address % 4;
      if frameType == 0 {
        result := OnStart(now, command, pass);
      } else if frameType == 1 {
        assert KindOf(Frame(address, command)).Data?;
        OnData(command);
        result := 0;
      } else if frameType == 2 {
        assert KindOf(Frame(address, command)).End?;
        result := OnEnd(command, out);
      } else {
        result := 0;
      }
    }
  }

  /** The pass number kept for the log: that of the last START of the open transmission. */
  function PassAfter(pass: byte, wasOpen: bool, isOpen: bool, f: Frame): byte {
    if wasOpen && !isOpen then 0
    else if KindOf(f).Start? && f.command > 0 then PassOf(f)
    else pass
  }

  /** The return value and the output buffer say what the outcome was; without a delivery the buffer is
      not touched. */
  ghost predicate Reports(o: Outcome, result: int, before: seq<byte>, out: array<byte>)
    reads out
  {
    && result == Code(o)
    && (if o.Delivered? then |o.payload| < out.Length && out[..|o.payload|] == o.payload && out[|o.payload|] == 0
        else out[..] == before)
  }

  /** One scancode as it comes off the receiver, with the clock reading the decoder will take. */
  datatype Scancode = Scancode(now: Timespec, address: byte, command: byte) {
    function AsEvent(): Event {
      Event(now.Nanos(), Frame(address, command))
    }
  }
}
