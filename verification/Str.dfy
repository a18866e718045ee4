/** Strings with a small inline buffer that move to the heap when they outgrow it (misc/str.c). */
module Str {
  import opened Memory

  const STR_SSO_SIZE := 32
  const MAX_INIT_CAPACITY := 16384
  const MIN_STR_GROWTH := 32
  const SIZE_MAX := 0xFFFF_FFFF_FFFF_FFFF

  lemma CopiedStart(to: string, from: string, n: nat)
    requires n < |from| && n < |to|
    ensures var r := Write(to, 0, from[..n + 1]); r[..n] == from[..n] && r[n] == from[n]
  {
    var r := Write(to, 0, from[..n + 1]);
    hide Write;
    assert r[0..n + 1][..n] == r[..n] && from[..n + 1][..n] == from[..n];
    assert r[0..n + 1][n] == r[n];
  }

  class Str {
    var inline: string     // the buffer inside the structure
    var heap: string       // the allocated buffer, empty if there is none
    var size: nat
    var capacity: nat
    var isDynamic: bool
    var initCapacity: int

    /** The buffer in use has room for the text and its terminator. */
    ghost predicate Valid()
      reads this
    {
      && |inline| == STR_SSO_SIZE && |heap| == capacity && (if isDynamic then capacity >= STR_SSO_SIZE else capacity == 0)
      && size < |Buffer()| && (size > 0 ==> Buffer()[size] == '\0')
    }

    function Buffer(): string
      reads this
    {
      if isDynamic then heap else inline
    }

    /** The text, as a plain sequence. */
    ghost function Contents(): string
      requires Valid()
      reads this
    {
      Buffer()[..size]
    }

    /** str_create_empty. */
    constructor (capacity: int)
      ensures Valid() && Contents() == ""
    {
      inline := seq(STR_SSO_SIZE, _ => '\0');
      heap, size, this.capacity, isDynamic := "", 0, 0, false;
      initCapacity := if capacity < MAX_INIT_CAPACITY then capacity else MAX_INIT_CAPACITY;
    }

    /** str_reset and str_clear: the text is gone and the buffer wiped. */
    method Reset()
      requires Valid()
      modifies this
      ensures Valid() && Contents() == "" && !isDynamic && initCapacity == old(initCapacity)
      ensures forall i :: 0 <= i < STR_SSO_SIZE ==> inline[i] == '\0'
    {
      inline := seq(STR_SSO_SIZE, _ => '\0');
      heap, size, capacity, isDynamic := "", 0, 0, false;
    }

    /** __str_switch_to_dynamic. */
    method SwitchToDynamic(required: nat)
      requires Valid() && !isDynamic && required > size && required >= STR_SSO_SIZE
      modifies this
      ensures Valid() && isDynamic && capacity >= required && initCapacity == old(initCapacity) && size == old(size) && Contents() == old(Contents())
    {
      var target: int := if initCapacity > 0 then initCapacity else 64;
      if target < required {
        target := required;
      }
      var block := Malloc(target);
      if size > 0 {
        block := Write(block, 0, inline[..size]);
      }
      Terminated(block, size);
      block := block[size := '\0'];
      heap, capacity, isDynamic := block, target, true;
    }

    /** __str_expand_buffer: it fails only for a buffer near the end of the address space. */
    method ExpandBuffer(extra: nat) returns (ok: bool)
      requires Valid() && size + extra + 1 >= STR_SSO_SIZE
      modifies this
      ensures Valid() && initCapacity == old(initCapacity) && size == old(size) && Contents() == old(Contents())
      ensures ok ==> |Buffer()| >= size + extra + 1
      ensures !ok ==> old(isDynamic) && old(capacity) > SIZE_MAX / 2 && size + extra + 1 > SIZE_MAX - 1024
    {
      var required := size + extra + 1;
      if !isDynamic {
        SwitchToDynamic(required);
        return true;
      }
      var target;
      if capacity > SIZE_MAX / 2 {
        target := required;
        if target > SIZE_MAX - 1024 {
          return false;
        }
      } else {
        target := capacity * 2;
      }
      if target < capacity + MIN_STR_GROWTH {
        target := capacity + MIN_STR_GROWTH;
      }
      if target < required {
        target := required;
      }
      var block := Realloc(heap, target);
      assert block[..size] == heap[..size];
      heap, capacity := block, target;
      ok := true;
    }

    /** Text at the end of the inline buffer, which has room for it. */
    method AppendInline(text: string)
      requires Valid() && !isDynamic && size + |text| < STR_SSO_SIZE
      modifies this
      ensures Valid() && initCapacity == old(initCapacity) && Contents() == old(Contents()) + text
    {
      inline := Write(inline, size, text);
      assert inline[..size + |text|] == inline[..size] + inline[size..size + |text|];
      size := size + |text|;
      Terminated(inline, size);
      inline := inline[size := '\0'];
    }

    /** Text anywhere in the buffer in use, which has room for it. */
    method InsertInPlace(text: string, pos: nat)
      requires Valid() && pos <= size && size + |text| + 1 <= |Buffer()|
      modifies this
      ensures Valid() && initCapacity == old(initCapacity)
      ensures Contents() == old(Contents())[..pos] + text + old(Contents())[pos..]
    {
      hide Write;
      ghost var before := Contents();
      var buffer := Buffer();
      assert before[..pos] == buffer[..pos] && before[pos..] == buffer[pos..size];
      Inserted(buffer, size, pos, text);
      buffer := Write(buffer, pos + |text|, buffer[pos..size]);
      buffer := Write(buffer, pos, text);
      size := size + |text|;
      Terminated(buffer, size);
      buffer := buffer[size := '\0'];
      if isDynamic {
        heap := buffer;
      } else {
        inline := buffer;
      }
    }

    /** str_insert. It fails for a position behind the text, and near the end of the address space. */
    method Insert(text: string, pos: nat) returns (ok: bool)
      requires Valid()
      modifies this
      ensures Valid() && initCapacity == old(initCapacity)
      ensures ok ==> pos <= old(size) && Contents() == old(Contents())[..pos] + text + old(Contents())[pos..]
      ensures !ok ==> Contents() == old(Contents()) && (pos > size || size + |text| + 1 > SIZE_MAX - 1024)
    {
      if pos > size {
        return false;
      }
      if !isDynamic && pos == size && size + |text| < STR_SSO_SIZE {
        AppendInline(text);
        return true;
      }
      if size + |text| + 1 >= |Buffer()| {
        ok := ExpandBuffer(|text|);
        if !ok {
          return;
        }
      }
      InsertInPlace(text, pos);
      ok := true;
    }

    /** str_insertc, which has a path of its own for the inline buffer. */
    method InsertChar(ch: char, pos: nat) returns (ok: bool)
      requires Valid()
      modifies this
      ensures Valid() && initCapacity == old(initCapacity)
      ensures ok ==> pos <= old(size) && Contents() == old(Contents())[..pos] + [ch] + old(Contents())[pos..]
      ensures !ok ==> Contents() == old(Contents()) && (pos > size || size + 2 > SIZE_MAX - 1024)
    {
      if pos > size {
        return false;
      }
      if !isDynamic && pos == size && size < STR_SSO_SIZE - 1 {
        inline := inline[size := ch];
        size := size + 1;
        inline := inline[size := '\0'];
        return true;
      }
      if size + 1 >= |Buffer()| {
        ok := ExpandBuffer(1);
        if !ok {
          return;
        }
      }
      InsertInPlace([ch], pos);
      ok := true;
    }

    /** str_append. */
    method Append(text: string) returns (ok: bool)
      requires Valid()
      modifies this
      ensures Valid() && (ok ==> Contents() == old(Contents()) + text) && (!ok ==> Contents() == old(Contents()))
      ensures ok || size + |text| + 1 > SIZE_MAX - 1024
    {
      ghost var before := Contents();
      ok := Insert(text, size);
      assert before[..|before|] == before && before[|before|..] == "";
    }

    /** str_assign. The text starts over; a null argument leaves it empty. */
    method Assign(text: string, isNull: bool) returns (ok: bool)
      requires Valid()
      modifies this
      ensures Valid() && (ok ==> !isNull && Contents() == text) && (!ok ==> Contents() == "")
      ensures ok || isNull || |text| + 1 > SIZE_MAX - 1024
    {
      size := 0;
      if isNull {
        return false;
      }
      ok := Insert(text, 0);
    }

    /** str_reserve: more room, the same text. */
    method Reserve(n: nat)
      requires Valid()
      modifies this
      ensures Valid() && size == old(size) && Contents() == old(Contents())
      ensures |Buffer()| >= n
    {
      if n <= STR_SSO_SIZE {
        return;
      }
      if isDynamic && capacity >= n {
        return;
      }
      if !isDynamic {
        var block := Malloc(n);
        if size > 0 {
          block := Write(block, 0, inline[..size]);
        }
        Terminated(block, size);
        block := block[size := '\0'];
        inline := seq(STR_SSO_SIZE, _ => '\0');
        heap, capacity, isDynamic := block, n, true;
      } else {
        var block := Realloc(heap, n);
        assert block[..size] == heap[..size];
        heap, capacity := block, n;
      }
    }

    /** str_move: the text changes hands and this string is empty, also when it is moved onto itself. */
    method Move(dst: Str)
      requires Valid() && dst.Valid()
      modifies this, dst
      ensures Valid() && dst.Valid() && Contents() == "" && !isDynamic
      ensures dst != this ==> dst.Contents() == old(Contents()) && dst.isDynamic == old(isDynamic)
    {
      if isDynamic {
        dst.heap, dst.capacity, dst.isDynamic := heap, capacity, true;
      } else {
        CopiedStart(dst.inline, inline, size);
        hide Write;
        dst.inline := Write(dst.inline, 0, inline[..size + 1]);
        dst.heap, dst.capacity, dst.isDynamic := "", 0, false;
      }
      dst.size, dst.initCapacity := size, initCapacity;
      inline := inline[0 := '\0'];
      heap, size, capacity, isDynamic := "", 0, 0, false;
    }

    /** str_get, as a C string: the text up to its terminator, which is the whole text unless it
        has a zero byte of its own. */
    method Get() returns (text: string)
      requires Valid()
      ensures |text| > |Contents()| && text[..size] == Contents() && text[size] == '\0'
    {
      if size == 0 {
        return "\0";
      }
      text := Buffer();
    }

    /** str_pop. */
    method Pop() returns (ok: bool)
      requires Valid()
      modifies this
      ensures Valid() && ok == (old(Contents()) != "")
      ensures if ok then Contents() + [old(Contents())[old(size) - 1]] == old(Contents()) else Contents() == old(Contents())
    {
      if size == 0 {
        return false;
      }
      size := size - 1;
      if isDynamic {
        heap := heap[size := '\0'];
      } else {
        inline := inline[size := '\0'];
      }
      ok := true;
    }

    /** str_copy. */
    method Copy() returns (data: string)
      requires Valid()
      ensures data == Contents() + "\0"
    {
      var text := Get();
      data := Malloc(size + 1);
      data := Write(data, 0, text[..size]);
      assert data[0..size] == data[..size];
      data := data[size := '\0'];
    }
  }
}
