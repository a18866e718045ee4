/** A byte buffer that collects into a fixed block and spills it to the heap when it is full
    (misc/bufferdata.c). */
module BufferData {
  import opened Memory

  const BUFFERDATA_SIZE := 4096
  const BUFFERDATA_CAPACITY := 4095   // one byte is kept for the terminator

  class Buffer {
    var block: string       // the static buffer
    var heap: string        // the dynamic buffer, empty if there is none
    var offsetStatic: nat
    var offsetDynamic: nat
    var isDynamic: bool     // the type

    /** The part in use lies inside each block, and what is read as a string is terminated. */
    ghost predicate Valid()
      reads this
    {
      && |block| == BUFFERDATA_SIZE && offsetStatic <= BUFFERDATA_CAPACITY
      && (if isDynamic then offsetDynamic < |heap| && heap[offsetDynamic] == '\0'
          else offsetDynamic == 0 && block[offsetStatic] == '\0')
    }

    /** The bytes, as a plain sequence. */
    ghost function Contents(): string
      requires Valid()
      reads this
    {
      (if isDynamic then heap[..offsetDynamic] else "") + block[..offsetStatic]
    }

    /** bufferdata_init. */
    constructor ()
      ensures Valid() && Contents() == ""
    {
      block, heap := seq(BUFFERDATA_SIZE, _ => '\0'), "";
      offsetStatic, offsetDynamic, isDynamic := 0, 0, false;
    }

    /** bufferdata_writed. */
    method Length() returns (n: nat)
      requires Valid()
      ensures n == |Contents()|
    {
      n := if isDynamic then offsetDynamic + offsetStatic else offsetStatic;
    }

    /** The spill of bufferdata_move: the static bytes go behind the dynamic ones. Whether memory can
        be had is a parameter; without it nothing changes. */
    method Spill(memory: bool) returns (ok: bool)
      requires |block| == BUFFERDATA_SIZE && offsetStatic <= BUFFERDATA_CAPACITY && offsetDynamic <= |heap|
      modifies this`heap, this`offsetStatic, this`offsetDynamic
      ensures memory ==> ok
      ensures ok ==> offsetStatic == 0 && offsetDynamic < |heap| && heap[offsetDynamic] == '\0'
      ensures ok ==> heap[..offsetDynamic] == old(heap[..offsetDynamic] + block[..offsetStatic])
      ensures !ok ==> heap == old(heap) && offsetStatic == old(offsetStatic) && offsetDynamic == old(offsetDynamic)
    {
      ghost var before := heap[..offsetDynamic];
      var length := offsetDynamic + offsetStatic;
      if |heap| <= length {
        if !memory {
          return false;
        }
        heap := Realloc(heap, length + 1);
        assert heap[..offsetDynamic] == before;
      }
      heap := Write(heap, offsetDynamic, block[..offsetStatic]);
      assert heap[..length] == heap[..offsetDynamic] + heap[offsetDynamic..length];
      Terminated(heap, length);
      heap := heap[length := '\0'];
      offsetDynamic, offsetStatic := length, 0;
      ok := true;
    }

    /** bufferdata_push. When the memory to spill cannot be had the byte is not taken and the buffer is as before. */
    method Push(ch: char, memory: bool) returns (ok: bool)
      requires Valid()
      modifies this
      ensures Valid() && (memory ==> ok)
      ensures Contents() == if ok then old(Contents()) + [ch] else old(Contents())
      ensures !ok ==> isDynamic == old(isDynamic)
    {
      ghost var before := Contents();
      if offsetStatic >= BUFFERDATA_CAPACITY {
        var was := isDynamic;
        if !isDynamic {
          isDynamic := true;
        }
        ok := Spill(memory);
        if !ok {
          isDynamic := was;
          return;
        }
        assert Contents() == before;
      }
      block := block[offsetStatic := ch];
      offsetStatic := offsetStatic + 1;
      assert block[..offsetStatic] == block[..offsetStatic - 1] + [ch];
      Terminated(block, offsetStatic);
      block := block[offsetStatic := '\0'];
      ok := true;
    }

    /** bufferdata_complete and bufferdata_move. */
    method Complete(memory: bool) returns (ok: bool)
      requires Valid()
      modifies this
      ensures Valid() && Contents() == old(Contents()) && (memory ==> ok)
      ensures ok && isDynamic ==> offsetStatic == 0
    {
      if isDynamic {
        ok := Spill(memory);
        return;
      }
      ok := true;
    }

    /** bufferdata_get: all the bytes in one place, terminated; not found stands for a null pointer. */
    method Get(memory: bool) returns (found: bool, text: string)
      requires Valid()
      modifies this
      ensures Valid() && Contents() == old(Contents()) && (memory ==> found)
      ensures found ==> |text| > |Contents()| && text[..|Contents()|] == Contents() && text[|Contents()|] == '\0'
    {
      text := "";
      if isDynamic {
        if offsetStatic > 0 {
          found := Spill(memory);
          if !found {
            return;
          }
        }
        return true, heap;
      }
      return true, block;
    }

    /** bufferdata_copy: the bytes and a terminator, in a block of their own. */
    method Copy(memory: bool, copyMemory: bool) returns (found: bool, data: string)
      requires Valid()
      modifies this
      ensures Valid() && Contents() == old(Contents()) && (memory && copyMemory ==> found)
      ensures found ==> data == Contents() + "\0"
    {
      data := "";
      var text;
      found, text := Get(memory);
      if !found {
        return;
      }
      var length := Length();
      if !copyMemory {
        return false, data;
      }
      data := Malloc(length + 1);
      data := Write(data, 0, text[..length]);
      assert data[0..length] == data[..length];
      data := data[length := '\0'];
    }

    /** bufferdata_back: the last byte, or zero. */
    method Back() returns (c: char)
      requires Valid()
      ensures c == if Contents() == "" then '\0' else Contents()[|Contents()| - 1]
    {
      var n := Length();
      if n == 0 {
        return '\0';
      }
      if offsetStatic > 0 {
        return block[offsetStatic - 1];
      }
      c := heap[offsetDynamic - 1];
    }

    /** bufferdata_pop_back: takes the last byte off, from whichever block it is in. */
    method PopBack() returns (c: char)
      requires Valid()
      modifies this
      ensures Valid() && if old(Contents()) == "" then c == '\0' && Contents() == "" else Contents() + [c] == old(Contents())
    {
      ghost var before := Contents();
      var n := Length();
      if n == 0 {
        return '\0';
      }
      if offsetStatic > 0 {
        c := block[offsetStatic - 1];
        assert block[..offsetStatic] == block[..offsetStatic - 1] + [c];
        Terminated(block, offsetStatic - 1);
        block := block[offsetStatic - 1 := '\0'];
        offsetStatic := offsetStatic - 1;
      } else {
        c := heap[offsetDynamic - 1];
        assert heap[..offsetDynamic] == heap[..offsetDynamic - 1] + [c];
        Terminated(heap, offsetDynamic - 1);
        heap := heap[offsetDynamic - 1 := '\0'];
        offsetDynamic := offsetDynamic - 1;
        assert block[..0] == "";
      }
    }

    /** bufferdata_reset keeps the dynamic buffer for later use, bufferdata_clear gives it back. */
    method Reset(free: bool)
      requires Valid()
      modifies this
      ensures Valid() && Contents() == "" && !isDynamic
      ensures heap == if free then "" else old(heap)
    {
      offsetDynamic, offsetStatic, isDynamic := 0, 0, false;
      block := block[0 := '\0'];
      if free {
        heap := "";
      }
    }
  }
}
