/** src/drivers/serial.c with include/arch/spinlock.h and the interrupt flags of src/trap.c,
each call run by itself.  SerialSystem lets interrupts in between the steps. */
module Serial {
  import opened Bits64
  import opened CString

  const SERIAL_BUF_SIZE := 256

  /** The two bits of sstatus that decide about interrupts. */
  datatype Status = Status(sie: bool, spie: bool)

  class Hart {
    var sstatus: Status

    /** csr_clear() of SIE leaves SPIE alone. */
    method IrqDisable()
      modifies this
      ensures sstatus == Status(false, old(sstatus.spie))
    {
      sstatus := sstatus.(sie := false);
    }

    method IrqEnable()
      modifies this
      ensures sstatus == Status(true, old(sstatus.spie))
    {
      sstatus := sstatus.(sie := true);
    }

    method IrqSave() returns (flags: Status)
      modifies this
      ensures flags == old(sstatus) && sstatus == Status(false, old(sstatus.spie))
    {
      flags := sstatus;
      IrqDisable();
    }

    method IrqRestore(flags: Status)
      modifies this
      ensures sstatus == flags
    {
      sstatus := flags;
    }
  }

  class SpinLock {
    var lock: u64

    /** The atomic swap: the lock is taken afterwards, whoever holds it. */
    method TryLock() returns (acquired: bool)
      modifies this
      ensures lock == 1 && (acquired <==> old(lock) == 0)
    {
      var val := lock;
      lock := 1;
      acquired := val == 0;
    }

    /** A held lock would spin here for ever: on one hart nobody else can release it. */
    method Lock()
      requires lock == 0
      modifies this
      ensures lock == 1
    {
      var acquired := false;
      while !acquired
        invariant if acquired then lock == 1 else lock == 0
        decreases !acquired
      {
        acquired := TryLock();
      }
    }

    method Unlock()
      modifies this
      ensures lock == 0
    {
      lock := 0;
    }

    method LockIrqSave(hart: Hart) returns (flags: Status)
      requires lock == 0
      modifies this, hart
      ensures lock == 1 && flags == old(hart.sstatus) && hart.sstatus == Status(false, flags.spie)
    {
      flags := hart.IrqSave();
      Lock();
    }

    method UnlockIrqRestore(hart: Hart, flags: Status)
      modifies this, hart
      ensures lock == 0 && hart.sstatus == flags
    {
      Unlock();
      hart.IrqRestore(flags);
    }
  }

  /** `dev` of src/drivers/serial.c; fifo is what the UART has received and not yet handed out. */
  class SerialDev {
    const buf: array<byte>
    var len: nat
    const sl: SpinLock
    var fifo: seq<byte>

    ghost predicate Valid()
      reads this
    {
      buf.Length == SERIAL_BUF_SIZE && len <= SERIAL_BUF_SIZE
    }

    /** Received bytes that no call of SerialRead has returned yet. */
    ghost function Contents(): seq<byte>
      reads this, buf
      requires Valid()
    {
      buf[..len]
    }

    /** SerialInit: src/drivers/serial.c:18-25, which also clears the receive FIFO. */
    constructor ()
      ensures Valid() && buf.Length == 256 && Contents() == [] && fifo == [] && fresh(buf) && fresh(sl) && sl.lock == 0
    {
      buf := new byte[SERIAL_BUF_SIZE];
      len := 0;
      sl := new SpinLock;
      fifo := [];
      new;
      sl.lock := 0;
    }

    /** Moves one byte from the device to the buffer, or leaves it there if the buffer is full. */
    method SerialIrq()
      requires Valid() && sl.lock == 0 && fifo != []
      modifies this, buf, sl
      ensures Valid() && sl.lock == 0
      ensures Contents() + fifo == old(Contents() + fifo)
      ensures |Contents()| == if old(len) < 256 then old(len) + 1 else old(len)
    {
      sl.Lock();
      if len < SERIAL_BUF_SIZE {
        buf[len] := fifo[0];
        len := len + 1;
        fifo := fifo[1..];
      }
      sl.Unlock();
      assert fifo != old(fifo) ==> old(fifo) == [old(fifo)[0]] + fifo;
    }

    method SerialRead(out: array<byte>, hart: Hart) returns (ret: nat)
      requires Valid() && sl.lock == 0 && out.Length >= 256 && out != buf
      modifies this, out, sl, hart
      ensures Valid() && sl.lock == 0 && hart.sstatus == old(hart.sstatus)
      ensures Contents() == [] && fifo == old(fifo)
      ensures ret <= out.Length && out[..ret] == old(Contents()) && out[ret..] == old(out[|Contents()|..])
    {
      var temp := sl.LockIrqSave(hart);
      var i := 0;
      while i < len
        invariant i <= len == old(len) <= SERIAL_BUF_SIZE && out[..i] == buf[..i]
        invariant forall k :: i <= k < out.Length ==> out[k] == old(out[k])
        invariant buf[..] == old(buf[..]) && fifo == old(fifo)
        invariant hart.sstatus == Status(false, temp.spie)
      {
        out[i] := buf[i];
        i := i + 1;
      }
      ret := len;
      len := 0;
      sl.UnlockIrqRestore(hart, temp);
      assert out[..ret] == old(buf[..])[..ret];
    }
  }
}
