/** Growing byte buffers of buf.c. */
module Buf {
  import opened Octets
  import opened Common

  const BASE_BUFFER_SIZE := 4096
  /** Requests up to this size can be doubled, with another block's worth of shrunk bytes in front, in 31 bits. */
  const REQUEST_MAX := 0x1FFF_FF00

  /** The allocation schemes of buffers that can change. */
  datatype Scheme = DoubleIt | Exact | IO | Hybrid | Bounded

  /** The first of start, 2 * start, 4 * start, ... that is at least the request. */
  function DoubledTo(start: nat, request: nat): nat
    decreases request - start
  {
    if start >= request || start == 0 then start else DoubledTo(2 * start, request)
  }

  /** The size after a request that does not fit. */
  function ResizedTo(alloc: Scheme, use: nat, size: nat, request: nat): nat
  {
    match alloc
    case IO => DoubledTo(2 * size, request)
    case DoubleIt => DoubledTo(2 * size, request)
    case Hybrid => if use < BASE_BUFFER_SIZE then request else DoubledTo(2 * size, request)
    case _ => request + 10
  }

  /** xmlStrlen of a zero-terminated string. */
  function Strlen(s: seq<byte>): (n: nat)
    ensures n <= |s| && (n < |s| ==> s[n] == 0) && forall i :: 0 <= i < n ==> s[i] != 0
  {
    if s == [] || s[0] == 0 then 0 else 1 + Strlen(s[1..])
  }

  /** The bytes that a length argument selects: -1 stands for all up to the terminator. */
  function Taken(str: seq<byte>, len: int): seq<byte>
    requires len <= |str|
  {
    if len >= 0 then str[..len] else if len == -1 then str[..Strlen(str)] else []
  }

  /** `mem` is the allocated block; `content` points at `mem[off]`; contentIO is the start of `mem` under the IO scheme. */
  class XmlBuf {
    var mem: array<byte>
    var off: nat
    var use: nat
    var size: nat
    var compatUse: nat
    var compatSize: nat
    var alloc: Scheme
    var error: bool

    /** Room for the terminator, inside the block, and the compat fields mirror use and size. */
    ghost predicate Valid()
      reads this, mem
    {
      && Shape()
      && compatUse == use && compatSize == size
    }

    ghost predicate Shape()
      reads this`mem, this`off, this`use, this`size, this`alloc, mem
    {
      Loose() && mem[off + use] == 0
    }

    /** The same without the terminator. */
    ghost predicate Loose()
      reads this`mem, this`off, this`use, this`size, this`alloc
    {
      && use < size && off < size && off + size < INT_MAX && off + size <= mem.Length
      && (!alloc.IO? ==> off == 0)
    }

    function Contents(): (s: seq<byte>)
      reads this`mem, this`off, this`use, mem
      requires off + use <= mem.Length
      ensures |s| == use
    {
      mem[off..off + use]
    }

    /** xmlBufCreate with the default size. */
    constructor (scheme: Scheme)
      requires !scheme.IO?
      ensures Valid() && fresh(mem) && Contents() == [] && alloc == scheme && !error && size == BASE_BUFFER_SIZE
    {
      mem := new byte[BASE_BUFFER_SIZE];
      off, use, size := 0, 0, BASE_BUFFER_SIZE;
      compatUse, compatSize := 0, BASE_BUFFER_SIZE;
      alloc, error := scheme, false;
      new;
      mem[0] := 0;
    }

    /** CHECK_COMPAT */
    method CheckCompat()
      modifies this`use, this`size
      ensures use == if compatUse < INT_MAX then compatUse else old(use)
      ensures size == if compatSize < INT_MAX then compatSize else old(size)
    {
      if size != compatSize && compatSize < INT_MAX {
        size := compatSize;
      }
      if use != compatUse && compatUse < INT_MAX {
        use := compatUse;
      }
    }

    /** UPDATE_COMPAT */
    method UpdateCompat()
      modifies this`compatUse, this`compatSize
      ensures compatSize == if size < INT_MAX then size else INT_MAX
      ensures compatUse == if use < INT_MAX then use else INT_MAX
    {
      compatSize := if size < INT_MAX then size else INT_MAX;
      compatUse := if use < INT_MAX then use else INT_MAX;
    }

    /** xmlBufSetAllocationScheme. Its result says failure also when the scheme was switched to IO. */
    method SetScheme(scheme: Scheme) returns (r: int)
      requires Valid()
      modifies this`alloc
      ensures Valid() && alloc == if error || old(alloc).IO? then old(alloc) else scheme
      ensures r == if error || old(alloc).IO? || scheme.IO? then -1 else 0
    {
      if error || alloc.IO? {
        return -1;
      }
      alloc := scheme;
      return if scheme.IO? then -1 else 0;
    }

    // ----- dropping bytes -----

    /** xmlBufEmpty */
    method Empty()
      requires Valid()
      modifies this`use, this`off, this`size, this`compatUse, this`compatSize, mem
      ensures Valid()
      ensures Contents() == if error then old(Contents()) else []
    {
      if error {
        return;
      }
      CheckCompat();
      use := 0;
      if alloc.IO? {
        size := size + off;
        off := 0;
        mem[0] := 0;
      } else {
        mem[off] := 0;
      }
      UpdateCompat();
    }

    /** memmove of the contents to the front of the block, with a terminator. */
    method MoveToFront(from: nat)
      requires from + use < mem.Length
      modifies mem
      ensures mem[..use] == old(mem[from..from + use]) && mem[use] == 0
    {
      ghost var s := mem[from..from + use];
      forall i | 0 <= i < use {
        mem[i] := mem[from + i];
      }
      mem[use] := 0;
      assert mem[..use] == s;
    }

    /** The content pointer moves; the bytes move only when more than half of the block lies in front of it. */
    method ShrinkIO(len: nat)
      requires Shape() && alloc.IO? && len <= use
      modifies this`use, this`off, this`size, mem
      ensures Shape() && Contents() == old(Contents())[len..]
    {
      ghost var s := mem[off + len..off + use];
      assert s == Contents()[len..];
      use := use - len;
      off := off + len;
      size := size - len;
      if off >= size {
        MoveToFront(off);
        size := size + off;
        off := 0;
      }
      assert Contents() == s;
    }

    method ShrinkInPlace(len: nat)
      requires Shape() && !alloc.IO? && len <= use
      modifies this`use, mem
      ensures Shape() && Contents() == old(Contents())[len..]
    {
      assert Contents()[len..] == mem[len..use];
      use := use - len;
      MoveToFront(len);
    }

    /** xmlBufShrink */
    method Shrink(len: nat) returns (r: nat)
      requires Valid()
      modifies this`use, this`off, this`size, this`compatUse, this`compatSize, mem
      ensures Valid()
      ensures r == if error || len > old(use) then 0 else len
      ensures Contents() == old(Contents())[r..]
    {
      hide Shape;
      if error {
        return 0;
      }
      CheckCompat();
      if len == 0 || len > use {
        return 0;
      }
      if alloc.IO? {
        ShrinkIO(len);
      } else {
        ShrinkInPlace(len);
      }
      Sizes();
      UpdateCompat();
      return len;
    }

    lemma Sizes()
      requires Shape()
      ensures use < size < INT_MAX && off + use <= mem.Length
    {}

    /** xmlBufErase */
    method Erase(len: nat) returns (r: int)
      requires Valid()
      modifies this`use, this`compatUse, this`compatSize, this`size, mem
      ensures Valid()
      ensures r == if error || len > old(use) then -1 else 0
      ensures Contents() == if r == 0 then old(Contents())[..old(use) - len] else old(Contents())
    {
      if error {
        return -1;
      }
      CheckCompat();
      if len > use {
        return -1;
      }
      FrontOf(use - len);
      Truncate(use - len);
      UpdateCompat();
      return 0;
    }

    method Truncate(n: nat)
      requires Shape() && n <= use
      modifies this`use, mem
      ensures Shape() && use == n && Contents() == old(mem[off..off + n])
    {
      ghost var s := mem[off..off + n];
      use := n;
      mem[off + use] := 0;
      assert Contents() == s;
    }

    lemma FrontOf(u: nat)
      requires Loose() && u <= use
      ensures mem[off..off + u] == Contents()[..u] && mem[off..off + use] == Contents()
    {}

    // ----- making room -----

    /** The block is replaced by one for `newSize` bytes that keeps the first `keep` bytes of the old one. */
    method Reallocate(newSize: nat, keep: nat)
      requires Loose() && size <= newSize && off + newSize < INT_MAX && off + use <= keep <= mem.Length
      modifies this`mem, this`size, this`compatUse, this`compatSize
      ensures Loose() && fresh(mem) && size == newSize && compatUse == use && compatSize == size
      ensures Contents() == old(Contents())
      ensures keep > off + use ==> mem[off + use] == old(mem[off + use])
    {
      var block := new byte[off + newSize];
      forall i | 0 <= i < keep && i < off + newSize {
        block[i] := mem[i];
      }
      ghost var s := mem[off..off + use];
      assert forall i :: off <= i < off + use ==> block[i] == mem[i];
      assert block[off..off + use] == s;
      mem := block;
      size := newSize;
      UpdateCompat();
      assert mem[off..off + use] == s;
    }

    /** xmlBufGrowInternal */
    method GrowInternal(len: nat) returns (r: nat)
      requires Valid() && use + len <= REQUEST_MAX
      modifies this`mem, this`use, this`size, this`compatUse, this`compatSize, this`error
      ensures Valid() && Contents() == old(Contents()) && (mem == old(mem) || fresh(mem))
      ensures error == (old(error)
                || (alloc.Bounded? && use + len >= old(size) && (use + len >= XML_MAX_TEXT_LENGTH || old(size) >= XML_MAX_TEXT_LENGTH)))
      ensures r == if error then 0 else size - use
      ensures !error ==> r > len
      ensures old(size) <= size && (use + len < old(size) ==> size == old(size))
    {
      hide Contents;
      if error {
        return 0;
      }
      CheckCompat();
      if use + len < size {
        return size - use;
      }
      var newSize := if size > len then size * 2 else use + len + 100;
      if alloc.Bounded? {
        if use + len >= XML_MAX_TEXT_LENGTH || size >= XML_MAX_TEXT_LENGTH {
          error := true;
          return 0;
        }
        if newSize >= XML_MAX_TEXT_LENGTH {
          newSize := XML_MAX_TEXT_LENGTH;
        }
      }
      Reallocate(newSize, mem.Length);
      return size - use;
    }

    /** xmlBufGrow */
    method Grow(len: int) returns (r: int)
      requires Valid() && use + len <= REQUEST_MAX
      modifies this`mem, this`use, this`size, this`compatUse, this`compatSize, this`error
      ensures Valid() && Contents() == old(Contents()) && (mem == old(mem) || fresh(mem))
      ensures len > 0 && !error ==> r == size - use > len
      ensures len > 0 && error ==> r == -1
      ensures len < 0 ==> r == -1
      ensures len == 0 ==> r == 0
      ensures error == (old(error)
                || (len > 0 && alloc.Bounded? && use + len >= old(size)
                    && (use + len >= XML_MAX_TEXT_LENGTH || old(size) >= XML_MAX_TEXT_LENGTH)))
      ensures old(size) <= size && (use + len < old(size) ==> size == old(size))
    {
      if len < 0 {
        return -1;
      }
      if len == 0 {
        return 0;
      }
      r := GrowInternal(len);
      if error {
        return -1;
      }
    }

    /** Doubling until the request fits; below REQUEST_MAX its overflow check never fires. */
    method Doubled(start: nat, request: nat) returns (newSize: nat)
      requires 0 < start <= 2 * REQUEST_MAX && request <= REQUEST_MAX
      ensures newSize == DoubledTo(start, request) && newSize >= request && newSize >= start && newSize <= 2 * REQUEST_MAX
    {
      newSize := start;
      while request > newSize
        invariant start <= newSize <= 2 * REQUEST_MAX && DoubledTo(newSize, request) == DoubledTo(start, request)
        decreases request - newSize
      {
        newSize := newSize * 2;
      }
    }

    /** The size that xmlBufResize chooses when the block is too small. */
    method NewSize(request: nat) returns (newSize: nat)
      requires Loose() && size <= request <= REQUEST_MAX
      ensures newSize == ResizedTo(alloc, use, size, request)
      ensures request <= newSize <= 2 * REQUEST_MAX && (alloc.IO? ==> newSize >= 2 * size)
    {
      match alloc
      case IO => newSize := Doubled(size * 2, request);
      case DoubleIt => newSize := Doubled(size * 2, request);
      case Exact => newSize := request + 10;
      case Hybrid =>
        if use < BASE_BUFFER_SIZE {
          newSize := request;
        } else {
          newSize := Doubled(size * 2, request);
        }
      case Bounded => newSize := request + 10;
    }

    /** xmlBufResize. It takes use from the compat field. The branch that moves shrunk data back to the start of the
        block is never taken. */
    method Resize(request: nat) returns (r: bool)
      requires Loose() && request <= REQUEST_MAX && compatUse <= use && compatSize == size
      modifies this`mem, this`use, this`size, this`compatUse, this`compatSize, this`error
      ensures Loose() && (mem == old(mem) || fresh(mem))
      ensures error == (old(error) || (alloc.Bounded? && request >= XML_MAX_TEXT_LENGTH)) && r == !error
      ensures use == if old(error) then old(use) else old(compatUse)
      ensures !old(error) ==> compatUse == use && compatSize == size
      ensures Contents() == old(mem[off..off + if error then use else compatUse])
      ensures old(mem[off + if error then use else compatUse]) == 0 ==> mem[off + use] == 0
      ensures r ==> size == if request < old(size) then old(size) else ResizedTo(alloc, use, old(size), request)
      ensures r ==> size >= request && size >= old(size)
      ensures !r ==> size == old(size)
      ensures old(error) ==> compatUse == old(compatUse) && compatSize == old(compatSize)
    {
      hide DoubledTo, ResizedTo;
      if error {
        return false;
      }
      CheckCompat();
      if alloc.Bounded? && request >= XML_MAX_TEXT_LENGTH {
        error := true;
        return false;
      }
      if request < size {
        return true;
      }
      var newSize := NewSize(request);
      if alloc.IO? && off > newSize {
        assert false;
      } else if alloc.IO? || size - use < 100 {
        Reallocate(newSize, mem.Length);
      } else {
        CopyUsed(newSize);
      }
      return true;
    }

    /** A new block for a buffer that is far from full: only the used bytes are copied. */
    method CopyUsed(newSize: nat)
      requires Loose() && !alloc.IO? && size <= newSize < INT_MAX
      modifies this`mem, this`size, this`compatUse, this`compatSize
      ensures Loose() && fresh(mem) && size == newSize && compatUse == use && compatSize == size
      ensures Contents() == old(Contents()) && mem[use] == 0
    {
      Reallocate(newSize, use);
      ghost var s := Contents();
      mem[use] := 0;
      assert Contents() == s;
    }
 
    // ----- adding bytes -----

    /** Whether adding n bytes fails: only a bounded buffer can be full. */
    ghost predicate TooLong(n: nat)
      reads this`use, this`size, this`alloc
    {
      alloc.Bounded? && use + n + 2 > size && use + n + 2 >= XML_MAX_TEXT_LENGTH
    }

    /** Room for n more bytes in front of the terminator, if the scheme allows. */
    method MakeRoom(n: nat) returns (ok: bool)
      requires Valid() && !error && use + n + 2 <= REQUEST_MAX
      modifies this`mem, this`use, this`size, this`compatUse, this`compatSize, this`error
      ensures Valid() && Contents() == old(Contents()) && (mem == old(mem) || fresh(mem))
      ensures ok == !old(TooLong(n)) == !error && (ok ==> use + n + 2 <= size)
      ensures use + n + 2 <= old(size) ==> size == old(size)
    {
      hide DoubledTo, ResizedTo;
      var needSize := use + n + 2;
      if needSize > size {
        if alloc.Bounded? && needSize >= XML_MAX_TEXT_LENGTH {
          error := true;
          return false;
        }
        ok := Resize(needSize);
      } else {
        ok := true;
      }
    }

    /** memmove of bytes to the end, the new terminator, and the compat fields. */
    method PutBehind(s: seq<byte>)
      requires Loose() && use + |s| < size
      modifies this`use, this`compatUse, this`compatSize, mem
      ensures Valid() && Contents() == old(Contents()) + s
    {
      ghost var c := Contents();
      forall i | 0 <= i < |s| {
        mem[off + use + i] := s[i];
      }
      use := use + |s|;
      mem[off + use] := 0;
      UpdateCompat();
      assert Contents() == c + s;
    }

    /** xmlBufAdd */
    method Add(str: seq<byte>, len: int) returns (r: int)
      requires Valid() && len <= |str| && use + |Taken(str, len)| + 2 <= REQUEST_MAX
      modifies this`mem, this`use, this`size, this`compatUse, this`compatSize, this`error, mem
      ensures Valid() && (mem == old(mem) || fresh(mem))
      ensures r == if old(error) || len < -1 || (Taken(str, len) != [] && old(TooLong(|Taken(str, len)|))) then -1 else 0
      ensures Contents() == if r == 0 then old(Contents()) + Taken(str, len) else old(Contents())
      ensures error == (old(error) || (r == -1 && len >= -1))
      ensures !error && old(use) + |Taken(str, len)| + 2 <= old(size) ==> size == old(size)
    {
      hide Loose, Contents;
      var s := Taken(str, len);
      if error || len < -1 {
        return -1;
      }
      CheckCompat();
      if s == [] {
        return 0;
      }
      var ok := MakeRoom(|s|);
      if !ok {
        return -1;
      }
      PutBehind(s);
      return 0;
    }

    /** xmlBufCat */
    method Cat(str: seq<byte>) returns (r: int)
      requires Valid() && use + |Taken(str, -1)| + 2 <= REQUEST_MAX
      modifies this`mem, this`use, this`size, this`compatUse, this`compatSize, this`error, mem
      ensures Valid() && (mem == old(mem) || fresh(mem))
      ensures r == if old(error) || (Taken(str, -1) != [] && old(TooLong(|Taken(str, -1)|))) then -1 else 0
      ensures Contents() == if r == 0 then old(Contents()) + Taken(str, -1) else old(Contents())
      ensures error == (old(error) || r == -1)
    {
      if error {
        return -1;
      }
      CheckCompat();
      r := Add(str, -1);
    }

    /** memmove of n bytes inside the block. */
    method Move(dst: nat, src: nat, n: nat)
      requires dst + n <= mem.Length && src + n <= mem.Length
      modifies mem
      ensures mem[dst..dst + n] == old(mem[src..src + n])
    {
      forall i | 0 <= i < n {
        mem[dst + i] := mem[src + i];
      }
    }

    method Fill(dst: nat, s: seq<byte>)
      requires dst + |s| <= mem.Length
      modifies mem
      ensures mem[dst..dst + |s|] == s && mem[dst + |s|..] == old(mem[dst + |s|..])
    {
      forall i | 0 <= i < |s| {
        mem[dst + i] := s[i];
      }
    }

    /** Bytes in front: in the space that was shrunk before, when there is more than enough of it. */
    method PutInGap(s: seq<byte>)
      requires Valid() && alloc.IO? && off > |s|
      modifies this`off, this`use, this`size, this`compatUse, this`compatSize, mem
      ensures Valid() && Contents() == s + old(Contents())
    {
      ghost var c, rest := Contents(), mem[off..];
      off := off - |s|;
      Fill(off, s);
      assert mem[off + |s|..] == rest && c == rest[..use] && rest[use] == mem[off + |s| + use];
      use := use + |s|;
      size := size + |s|;
      UpdateCompat();
      assert Contents() == s + c;
    }

    /** Bytes in front: the contents move back. */
    method PutBefore(s: seq<byte>)
      requires Loose() && use + |s| < size
      modifies this`use, this`compatUse, this`compatSize, mem
      ensures Valid() && Contents() == s + old(Contents())
    {
      ghost var c := Contents();
      Move(off + |s|, off, use);
      ghost var rest := mem[off + |s|..];
      assert rest[..use] == mem[off + |s|..off + |s| + use] == c;
      Fill(off, s);
      EndAt(s, c, rest);
    }

    method EndAt(s: seq<byte>, ghost c: seq<byte>, ghost rest: seq<byte>)
      requires Loose() && |c| == use && use + |s| < size
      requires mem[off..off + |s|] == s && mem[off + |s|..] == rest && use <= |rest| && rest[..use] == c
      modifies this`use, this`compatUse, this`compatSize, mem
      ensures Valid() && Contents() == s + c
    {
      assert mem[off..off + |s| + use] == s + c;
      use := use + |s|;
      mem[off + use] := 0;
      UpdateCompat();
    }

    /** xmlBufAddHead */
    method AddHead(str: seq<byte>, len: int) returns (r: int)
      requires Valid() && len <= |str| && use + |Taken(str, len)| + 2 <= REQUEST_MAX
      modifies this`mem, this`off, this`use, this`size, this`compatUse, this`compatSize, this`error, mem
      ensures Valid() && (mem == old(mem) || fresh(mem))
      ensures r == if old(error) || len < -1 || (len == -1 && Taken(str, len) == [])
                      || (Taken(str, len) != [] && old(TooLong(|Taken(str, len)|))) then -1 else 0
      ensures Contents() == if r == 0 then Taken(str, len) + old(Contents()) else old(Contents())
      ensures error == (old(error) || (Taken(str, len) != [] && old(TooLong(|Taken(str, len)|))))
    {
      hide Loose, Contents;
      var s := Taken(str, len);
      if error || len < -1 {
        return -1;
      }
      CheckCompat();
      if s == [] {
        return if len == 0 then 0 else -1;
      }
      if alloc.IO? && off > |s| {
        PutInGap(s);
        return 0;
      }
      var ok := MakeRoom(|s|);
      if !ok {
        return -1;
      }
      PutBefore(s);
      return 0;
    }

    /** xmlBufAddLen, for bytes that the caller has put behind the contents. A request for all free bytes fails half
        way: the terminator has no room. */
    method AddLen(len: nat) returns (r: int)
      requires Loose() && compatUse == use && compatSize == size
      modifies this`use, this`size, this`compatUse, this`compatSize, mem
      ensures r == 0 <==> !error && len < old(size) - old(use)
      ensures r == 0 ==> Valid() && Contents() == old(mem[off..off + use + len]) && size == old(size)
      ensures error || len > old(size) - old(use) ==> Loose() && compatUse == use == old(use) && Contents() == old(Contents())
      ensures !error && len == old(size) - old(use) ==> r == -1 && use == size && !Valid()
    {
      if error {
        return -1;
      }
      CheckCompat();
      if len > size - use {
        return -1;
      }
      ghost var s := mem[off..off + use + len];
      use := use + len;
      UpdateCompat();
      if size > use {
        mem[off + use] := 0;
        assert Contents() == s;
        return 0;
      }
      return -1;
    }

    // ----- xmlBufCCat -----

    /** The size after the first character of xmlBufCCat. */
    ghost function FirstSize(): nat
      reads this`use, this`size, this`alloc
    {
      if use + 10 >= size then ResizedTo(alloc, use, size, use + 10) else size
    }

    /** One character. A request for room sets use back to the value that it had before the call. */
    method PutChar(c: byte) returns (ok: bool, reset: bool)
      requires Loose() && !error && compatUse <= use && compatSize == size && use + 10 <= REQUEST_MAX
      modifies this`mem, this`use, this`size, this`compatUse, this`compatSize, this`error, mem
      ensures ok == !error && (!ok ==> alloc.Bounded?) && (mem == old(mem) || fresh(mem))
      ensures ok ==> Loose() && compatUse == old(compatUse) && compatSize == size
      ensures reset == (old(use) + 10 >= old(size))
      ensures ok ==> use == (if reset then old(compatUse) else old(use)) + 1
      ensures ok ==> Contents() == old(mem[off..off + if use + 10 >= size then compatUse else use]) + [c]
      ensures ok ==> size == if reset then ResizedTo(alloc, old(compatUse), old(size), old(use) + 10) else old(size)
    {
      hide DoubledTo, ResizedTo, Contents;
      FrontOf(compatUse);
      reset := use + 10 >= size;
      ok := true;
      if reset {
        ok := Resize(use + 10);
        if !ok {
          return;
        }
      }
      StoreByte(c);
    }

    method StoreByte(c: byte)
      requires Loose() && use + 1 < size
      modifies this`use, mem
      ensures Loose() && use == old(use) + 1 && Contents() == old(Contents()) + [c]
    {
      ghost var s := Contents();
      mem[off + use] := c;
      use := use + 1;
      assert Contents() == s + [c];
    }

    /** The characters of xmlBufCCat one by one. `start` is where the last of them begin that were not overwritten. */
    method PutChars(s: seq<byte>) returns (ok: bool, ghost start: nat)
      requires Valid() && !error && use + |s| + 10 <= REQUEST_MAX
      modifies this`mem, this`use, this`size, this`compatUse, this`compatSize, this`error, mem
      ensures ok == !error && (!ok ==> alloc.Bounded?)
      ensures ok ==> start <= |s| && (start == 0 <==> |s| <= 1 || old(use) + |s| + 9 < old(FirstSize()))
      ensures ok ==> Loose() && Contents() == old(Contents()) + s[start..]
      ensures mem == old(mem) || fresh(mem)
    {
      hide DoubledTo, ResizedTo, Contents, Taken, Strlen;
      ghost var c, u, s1 := Contents(), use, FirstSize();
      start := 0;
      var i := 0;
      ok := true;
      assert s[0..0] == [];
      while i < |s|
        invariant 0 <= start <= i <= |s| && (start > 0 ==> start < i)
        invariant Loose() && !error && compatUse == u && compatSize == size && use == u + i - start
        invariant (mem == old(mem) || fresh(mem)) && Contents() == c + s[start..i]
        invariant start > 0 || size == if i == 0 then old(size) else s1
        invariant start == 0 <==> i <= 1 || u + i + 9 < s1
      {
        ok, start := NextChar(s, i, c, start);
        if !ok {
          return;
        }
        i := i + 1;
      }
      assert s[start..|s|] == s[start..];
    }

    method NextChar(s: seq<byte>, i: nat, ghost c: seq<byte>, ghost start: nat) returns (ok: bool, ghost start': nat)
      requires start <= i < |s| && Loose() && !error && use + 10 <= REQUEST_MAX
      requires compatUse == |c| && compatSize == size && use == |c| + i - start && Contents() == c + s[start..i]
      modifies this`mem, this`use, this`size, this`compatUse, this`compatSize, this`error, mem
      ensures ok == !error && (!ok ==> alloc.Bounded?) && (mem == old(mem) || fresh(mem))
      ensures start' == if old(use) + 10 >= old(size) then i else start
      ensures ok ==> Loose() && compatUse == |c| && compatSize == size && use == |c| + i + 1 - start'
      ensures ok ==> Contents() == c + s[start'..i + 1]
      ensures ok ==> size == if old(use) + 10 >= old(size) then ResizedTo(alloc, |c|, old(size), old(use) + 10) else old(size)
    {
      hide DoubledTo, ResizedTo, Contents;
      FrontOf(|c|);
      Grown(c, s, start, i);
      start' := start;
      var reset;
      ok, reset := PutChar(s[i]);
      if reset {
        start' := i;
      }
    }

    lemma Grown(c: seq<byte>, s: seq<byte>, start: nat, i: nat)
      requires start <= i < |s|
      ensures s[start..i + 1] == s[start..i] + [s[i]] && s[i..i + 1] == [s[i]]
      ensures (c + s[start..i])[..|c|] == c
      ensures c + s[start..i] + [s[i]] == c + s[start..i + 1]
    {}

    /** xmlBufCCat of the characters s. They arrive unchanged if and only if no room has to be made after the first. */
    method CCat(s: seq<byte>) returns (r: int)
      requires Valid() && use + |s| + 10 <= REQUEST_MAX
      modifies this`mem, this`use, this`size, this`compatUse, this`compatSize, this`error, mem
      ensures old(error) ==> r == -1 && Valid() && Contents() == old(Contents())
      ensures !old(error) ==> r == if error then 2 else 0
      ensures error && !old(error) ==> alloc.Bounded?
      ensures r == 0 ==> Valid() && alloc == old(alloc) && (mem == old(mem) || fresh(mem)) && old(use) <= use <= old(use) + |s|
      ensures r == 0 ==> (use == old(use) + |s| <==> Contents() == old(Contents()) + s)
      ensures r == 0 ==>
                (Contents() == old(Contents()) + s <==> |s| <= 1 || old(use) + |s| + 9 < old(FirstSize()))
    {
      hide DoubledTo, ResizedTo;
      if error {
        return -1;
      }
      CheckCompat();
      var ok;
      ghost var start;
      ok, start := PutChars(s);
      if !ok {
        return 2;
      }
      assert start == 0 ==> s[start..] == s;
      ghost var c := Contents();
      mem[off + use] := 0;
      assert Contents() == c;
      UpdateCompat();
      return 0;
    }
 
    // ----- runs -----

    /** What a bounded buffer refuses: bytes, or room, that would take it to ten million. */
    ghost predicate Refuses(op: Op)
      reads this`use, this`size, this`alloc
    {
      alloc.Bounded?
      && match op
         case Append(s) => s != [] && use + |s| + 2 > size && use + |s| + 2 >= 10000000
         case AppendString(s) => Strlen(s) > 0 && use + Strlen(s) + 2 > size && use + Strlen(s) + 2 >= 10000000
         case Prepend(s) => s != [] && use + |s| + 2 > size && use + |s| + 2 >= 10000000
         case Reserve(n) => n > 0 && use + n >= size && (use + n >= 10000000 || size >= 10000000)
         case Enlarge(n) => n >= 10000000
         case _ => false
    }

    /** One operation; `full` when a bounded buffer refused it for good. */
    method Perform(op: Op) returns (ghost full: bool)
      requires Valid() && use + Cost(op) <= REQUEST_MAX
      modifies this, mem
      ensures Valid() && (mem == old(mem) || fresh(mem))
      ensures State(Contents(), error) == Step(old(State(Contents(), error)), op, full)
      ensures full <==> !old(error) && old(Refuses(op))
      ensures alloc.Bounded? ==> old(alloc).Bounded? || op == ChangeScheme(Bounded)
    {
      hide Shape, Contents, DoubledTo, ResizedTo, Strlen;
      ghost var was := error;
      match op {
        case Append(s) =>
          assert s[..|s|] == s;
          var r := Add(s, |s|);
        case AppendString(s) =>
          var r := Cat(s);
        case Prepend(s) =>
          assert s[..|s|] == s;
          var r := AddHead(s, |s|);
        case DropFront(n) =>
          var r := Shrink(n);
        case DropBack(n) =>
          var r := Erase(n);
        case Clear =>
          Empty();
        case Reserve(n) =>
          var r := Grow(n);
        case Enlarge(n) =>
          EnlargeTo(n);
        case ChangeScheme(scheme) =>
          var r := SetScheme(scheme);
      }
      full := error && !was;
    }

    method EnlargeTo(n: nat)
      requires Valid() && n <= REQUEST_MAX
      modifies this`mem, this`use, this`size, this`compatUse, this`compatSize, this`error
      ensures Valid() && Contents() == old(Contents()) && (mem == old(mem) || fresh(mem))
      ensures error == (old(error) || (alloc.Bounded? && n >= XML_MAX_TEXT_LENGTH))
    {
      var r := Resize(n);
    }

    /** Any sequence of operations acts on a plain string of bytes. `full` records the refusals, which only happen
        while the scheme is Bounded. */
    method Run(ops: seq<Op>) returns (ghost full: seq<bool>)
      requires Valid() && AllFit(State(Contents(), error), ops)
      modifies this, mem
      ensures Valid() && |full| == |ops|
      ensures State(Contents(), error) == Steps(old(State(Contents(), error)), ops, full)
      ensures !old(alloc).Bounded? && ChangeScheme(Bounded) !in ops ==> forall i :: 0 <= i < |full| ==> !full[i]
    {
      hide Contents, Step;
      full := [];
      ghost var st := State(Contents(), error);
      var i := 0;
      assert ops[..0] == [];
      while i < |ops|
        invariant 0 <= i <= |ops| && |full| == i && Valid() && (mem == old(mem) || fresh(mem))
        invariant AllFit(State(Contents(), error), ops[i..])
        invariant State(Contents(), error) == Steps(st, ops[..i], full)
        invariant alloc.Bounded? ==> old(alloc).Bounded? || ChangeScheme(Bounded) in ops[..i]
        invariant forall k :: 0 <= k < i && full[k] ==> old(alloc).Bounded? || ChangeScheme(Bounded) in ops
      {
        assert ops[i..][0] == ops[i] && ops[i..][1..] == ops[i + 1..];
        assert ops[..i + 1][..i] == ops[..i];
        ghost var before := State(Contents(), error);
        ghost var f := Perform(ops[i]);
        assert AllFit(Step(before, ops[i], f), ops[i + 1..]);
        assert (full + [f])[..i] == full;
        full := full + [f];
        i := i + 1;
      }
      assert ops[..i] == ops;
    }
  }

  /** Two characters behind 4086 others: the first of them is overwritten. */
  method CharacterLost() returns (buf: XmlBuf)
    ensures buf.Valid() && !buf.error && buf.use < 4088
  {
    buf := new XmlBuf(Hybrid);
    var text := seq(4086, i => 97 as byte);
    assert text[..4086] == text;
    var r := buf.Add(text, 4086);
    assert buf.use == 4086 && buf.size == 4096;
    ghost var c := buf.Contents();
    r := buf.CCat([98, 99]);
    assert |c + [98, 99]| == 4088;
  }

  datatype Op =
    | Append(s: seq<byte>) | AppendString(s: seq<byte>) | Prepend(s: seq<byte>)
    | DropFront(n: nat) | DropBack(n: nat) | Clear | Reserve(n: nat) | Enlarge(n: nat) | ChangeScheme(scheme: Scheme)

  function Cost(op: Op): nat
  {
    match op
    case Append(s) => |s| + 2
    case AppendString(s) => |s| + 2
    case Prepend(s) => |s| + 2
    case Reserve(n) => n
    case Enlarge(n) => n
    case _ => 0
  }

  /** What a buffer is to its users: a string of bytes, and whether it has failed. */
  datatype State = State(bytes: seq<byte>, failed: bool)

  /** At every step, what is held and what the step asks for fit together: nothing is asked of the run as a whole. */
  ghost predicate AllFit(st: State, ops: seq<Op>)
    decreases |ops|
  {
    ops == []
    || (|st.bytes| + Cost(ops[0]) <= REQUEST_MAX && forall full :: AllFit(Step(st, ops[0], full), ops[1..]))
  }

  function Step(st: State, op: Op, full: bool): State
  {
    if st.failed then st
    else if full then st.(failed := true)
    else match op
      case Append(s) => st.(bytes := st.bytes + s)
      case AppendString(s) => st.(bytes := st.bytes + s[..Strlen(s)])
      case Prepend(s) => st.(bytes := s + st.bytes)
      case DropFront(n) => st.(bytes := if n > |st.bytes| then st.bytes else st.bytes[n..])
      case DropBack(n) => st.(bytes := if n > |st.bytes| then st.bytes else st.bytes[..|st.bytes| - n])
      case Clear => st.(bytes := [])
      case _ => st
  }

  function Steps(st: State, ops: seq<Op>, full: seq<bool>): State
    requires |full| == |ops|
  {
    if ops == [] then st
    else Step(Steps(st, ops[..|ops| - 1], full[..|ops| - 1]), ops[|ops| - 1], full[|ops| - 1])
  }
}
