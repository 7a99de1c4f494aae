/** The wrappers' view of the input file: which descriptor it is and how far it has been read.  The
    kernel's (or the C library's) view is the position that it keeps for every open file. */
module InputCursor {
  import opened BitVectors
  import opened Expressions
  import opened FlatShadow
  import opened Programs
  import opened Concolic
  import opened Faithfulness
  import opened Pins
  import opened Shadow

  // ----- The operating system -----

  datatype OpenFile = OpenFile(isInput: bool, position: nat)

  /** Open descriptors. */
  type Files = map<nat, OpenFile>

  /** Calls with the results that the operating system gave.  A stream call names the stream's
      descriptor, and positions are those that the program sees; after `SeekUntold` the C library
      does not tell the position. */
  datatype Call =
    | Open(fd: nat, isInput: bool)
    | OpenFails
    | Close(fd: nat)
    | Read(fd: nat, buf: nat, count: nat)
    | ReadFails(fd: nat)
    | Seek(fd: nat, position: nat)
    | SeekFails(fd: nat)
    | SeekUntold(fd: nat, position: nat)
    | Fread(fd: nat, ptr: nat, size: nat, elements: nat, partial: nat)
    | Getc(fd: nat)
    | GetcAtEnd(fd: nat)

  /** Results that are possible: a new descriptor is not in use, others are open, and fread consumes
      at most an incomplete element beyond the complete ones. */
  predicate Possible(files: Files, call: Call) {
    match call
    case Open(fd, _) => fd !in files
    case OpenFails => true
    case Fread(fd, _, size, _, partial) => fd in files && (partial == 0 || partial < size)
    case _ => call.fd in files
  }

  function Forward(files: Files, fd: nat, count: nat): Files {
    if fd in files then files[fd := files[fd].(position := files[fd].position + count)] else files
  }

  function FilesAfter(files: Files, call: Call): Files {
    match call
    case Open(fd, isInput) => files[fd := OpenFile(isInput, 0)]
    case Close(fd) => files - {fd}
    case Read(fd, _, count) => Forward(files, fd, count)
    case Seek(fd, position) => if fd in files then files[fd := files[fd].(position := position)] else files
    case SeekUntold(fd, position) => if fd in files then files[fd := files[fd].(position := position)] else files
    case Fread(fd, _, size, elements, partial) => Forward(files, fd, elements * size + partial)
    case Getc(fd) => Forward(files, fd, 1)
    case _ => files
  }

  // ----- The wrappers -----

  /** -1 stands for no input file. */
  datatype Cursor = Cursor(inputFileDescriptor: int, inputOffset: nat)

  /** What the wrappers make of a call; `close` is not wrapped. */
  function CursorAfter(cursor: Cursor, call: Call): Cursor {
    match call
    case Open(fd, isInput) => if isInput then Cursor(fd, 0) else cursor
    case Read(fd, _, count) => Moved(cursor, fd, count)
    case Seek(fd, position) => if fd == cursor.inputFileDescriptor then Cursor(fd, position) else cursor
    case Fread(fd, _, size, elements, _) => Moved(cursor, fd, elements * size)
    case Getc(fd) => Moved(cursor, fd, 1)
    case _ => cursor
  }

  function Moved(cursor: Cursor, fd: nat, count: nat): Cursor {
    if fd == cursor.inputFileDescriptor then cursor.(inputOffset := cursor.inputOffset + count) else cursor
  }

  /** The shadow of what was read. */
  function ReadShadowAfter(cursor: Cursor, sh: ShadowMap, fd: nat, buf: nat, count: nat): ShadowMap {
    if fd == cursor.inputFileDescriptor then WriteInput(sh, buf, cursor.inputOffset, count) else Clear(sh, buf, count)
  }

  class Wrappers {
    const store: ShadowPages
    var inputFileDescriptor: int
    var inputOffset: nat

    function View(): Cursor
      reads this
    {
      Cursor(inputFileDescriptor, inputOffset)
    }

    /** The symbolic data comes from standard input, or from a file that is not open yet. */
    constructor (store: ShadowPages, standardInput: bool)
      ensures this.store == store && View() == Cursor(if standardInput then 0 else -1, 0)
    {
      this.store := store;
      inputFileDescriptor := if standardInput then 0 else -1;
      inputOffset := 0;
    }

    /** `open` and `fopen`; `matches` tells whether the path names the input file. */
    method Open(result: int, matches: bool)
      modifies this
      ensures View() == CursorAfter(old(View()), if result >= 0 then Call.Open(result, matches) else OpenFails)
    {
      if result >= 0 && matches {
        inputFileDescriptor := result;
        inputOffset := 0;
      }
    }

    /** `std::generate` with the expressions of the next input bytes. */
    method Generate(buf: nat, count: nat)
      requires store.Valid() && buf + count < ADDRESS_LIMIT
      modifies this, store, store.repr
      ensures store.Valid() && fresh(store.repr - old(store.repr))
      ensures inputFileDescriptor == old(inputFileDescriptor) && inputOffset == old(inputOffset) + count
      ensures store.flat == WriteInput(old(store.flat), buf, old(inputOffset), count)
    {
      hide WriteInput, WriteWalk, SetCell;
      ghost var flat, offset := store.flat, inputOffset;
      var end := new WriteShadowIterator(store, buf + count);
      var it := BeginWrite(store, buf);
      ghost var i := 0;
      NothingWritten(flat, buf, offset);
      while it.address != end.address
        invariant fresh(it) && it != end && end.address == buf + count
        invariant WriteWalk(store, it) && fresh(store.repr - old(store.repr))
        invariant it.address == buf + i && 0 <= i <= count
        invariant inputFileDescriptor == old(inputFileDescriptor) && inputOffset == offset + i
        invariant store.flat == WriteInput(flat, buf, offset, i)
        decreases count - i
      {
        OneWritten(flat, buf, offset, i);
        WriteStep(store, it, Some(InputByte(inputOffset)));
        inputOffset := inputOffset + 1;
        i := i + 1;
      }
      WriteWalkIsValid(store, it);
    }

    /** After a call that delivered `count` bytes. */
    method Deliver(fd: nat, buf: nat, count: nat)
      requires store.Valid() && buf + count < ADDRESS_LIMIT
      modifies this, store, store.repr
      ensures store.Valid() && fresh(store.repr - old(store.repr))
      ensures View() == Moved(old(View()), fd, count)
      ensures store.flat == ReadShadowAfter(old(View()), old(store.flat), fd, buf, count)
    {
      hide WriteInput, Clear, IsConcrete, ShadowPages.Valid;
      if fd == inputFileDescriptor {
        Generate(buf, count);
      } else {
        var concrete := IsConcreteRange(store, buf, count);
        if concrete {
          ConcreteClear(store.flat, buf, count);
        } else {
          Fill(store, buf, count, None);
        }
      }
    }

    /** `read` of `count` bytes with its result; `exprs` are the parameter expressions of the buffer and
        the count. */
    method Read(fd: nat, buf: nat, count: nat, exprs: seq<Option<Expr>>, result: int) returns (pushed: Path)
      requires store.Valid() && (result >= 0 ==> buf + result < ADDRESS_LIMIT) && |exprs| == 2
      modifies this, store, store.repr
      ensures store.Valid() && fresh(store.repr - old(store.repr))
      ensures View() == CursorAfter(old(View()), if result >= 0 then Call.Read(fd, buf, result) else ReadFails(fd))
      ensures store.flat
           == if result >= 0 then ReadShadowAfter(old(View()), old(store.flat), fd, buf, result) else old(store.flat)
      ensures pushed == PinAll([Wide(buf, exprs[0]), Wide(count, exprs[1])])
    {
      hide WriteInput, Clear, ShadowPages.Valid, PinAll;
      pushed := PushPins([Wide(buf, exprs[0]), Wide(count, exprs[1])]);
      if result < 0 {
        return;
      }
      Deliver(fd, buf, result);
    }

    /** `fread` of `count` elements, of which `elements` were read; an incomplete one goes unnoticed. */
    method Fread(fd: nat, ptr: nat, size: nat, count: nat, exprs: seq<Option<Expr>>, elements: nat, ghost partial: nat)
      returns (pushed: Path)
      requires store.Valid() && ptr + elements * size < ADDRESS_LIMIT && |exprs| == 3
      modifies this, store, store.repr
      ensures store.Valid() && fresh(store.repr - old(store.repr))
      ensures View() == CursorAfter(old(View()), Call.Fread(fd, ptr, size, elements, partial))
      ensures store.flat == ReadShadowAfter(old(View()), old(store.flat), fd, ptr, elements * size)
      ensures pushed == PinAll([Wide(ptr, exprs[0]), Wide(size, exprs[1]), Wide(count, exprs[2])])
    {
      hide WriteInput, Clear, ShadowPages.Valid, PinAll;
      pushed := PushPins([Wide(ptr, exprs[0]), Wide(size, exprs[1]), Wide(count, exprs[2])]);
      Deliver(fd, ptr, elements * size);
    }

    /** `lseek64` with its result: pushes nothing; the return expression is that of the offset if the
        position was given absolutely. */
    method Lseek64(fd: nat, offsetExpr: Option<Expr>, absolute: bool, result: int) returns (returned: Option<Expr>)
      requires result >= -1
      modifies this
      ensures View() == CursorAfter(old(View()), if result == -1 then SeekFails(fd) else Call.Seek(fd, result))
      ensures returned == if result != -1 && absolute then offsetExpr else None
    {
      returned := None;
      if result == -1 {
        return;
      }
      if absolute {
        returned := offsetExpr;
      }
      if fd == inputFileDescriptor {
        inputOffset := result;
      }
    }

    /** `fseek` with its result and that of `ftell` after it. */
    method Fseek(fd: nat, offset: nat, offsetExpr: Option<Expr>, result: int, told: int, ghost position: nat)
      returns (pushed: Path)
      requires told == -1 || told == position
      modifies this
      ensures View() == CursorAfter(old(View()), if result == -1 then SeekFails(fd)
                                                 else if told == -1 then SeekUntold(fd, position)
                                                 else Call.Seek(fd, position))
      ensures pushed == PinAll([Wide(offset, offsetExpr)])
    {
      hide PinAll;
      pushed := PushPins([Wide(offset, offsetExpr)]);
      if result == -1 {
        return;
      }
      if fd == inputFileDescriptor {
        if told == -1 {
          return;
        }
        inputOffset := told;
      }
    }

    method Rewind(fd: nat)
      modifies this
      ensures View() == CursorAfter(old(View()), Call.Seek(fd, 0))
    {
      if fd == inputFileDescriptor {
        inputOffset := 0;
      }
    }

    /** `getc` and `fgetc`, after a call that did not meet the end: the expression of the result. */
    method Getc(fd: nat) returns (e: Cell)
      modifies this
      ensures View() == CursorAfter(old(View()), Call.Getc(fd))
      ensures e == if fd == old(inputFileDescriptor) then Some(ZeroExtend(24, InputByte(old(inputOffset)))) else None
    {
      if fd == inputFileDescriptor {
        e := Some(ZeroExtend(24, InputByte(inputOffset)));
        inputOffset := inputOffset + 1;
      } else {
        e := None;
      }
    }
  }

  lemma NothingWritten(sh: ShadowMap, buf: nat, offset: nat)
    ensures WriteInput(sh, buf, offset, 0) == sh
  {
    Extensional(WriteInput(sh, buf, offset, 0), sh);
  }

  lemma WriteInputAt(sh: ShadowMap, buf: nat, offset: nat, count: nat, a: nat)
    ensures CellAt(WriteInput(sh, buf, offset, count), a)
         == if buf <= a < buf + count then Some(InputByte(offset + (a - buf))) else CellAt(sh, a)
  {
  }

  lemma OneWritten(sh: ShadowMap, buf: nat, offset: nat, i: nat)
    ensures WriteInput(sh, buf, offset, i + 1)
      == SetCell(WriteInput(sh, buf, offset, i), buf + i, Some(InputByte(offset + i)))
  {
    hide WriteInput;
    var next, prev := WriteInput(sh, buf, offset, i + 1), WriteInput(sh, buf, offset, i);
    forall a: nat
      ensures CellAt(next, a) == CellAt(SetCell(prev, buf + i, Some(InputByte(offset + i))), a)
    {
      WriteInputAt(sh, buf, offset, i + 1, a);
      WriteInputAt(sh, buf, offset, i, a);
    }
    Extensional(next, SetCell(prev, buf + i, Some(InputByte(offset + i))));
  }

  // ----- Runs -----

  /** Exactly the descriptor of the input file is tracked, at the position it has. */
  predicate InStep(files: Files, cursor: Cursor) {
    forall fd | fd in files ::
      (files[fd].isInput <==> fd == cursor.inputFileDescriptor)
      && (files[fd].isInput ==> files[fd].position == cursor.inputOffset)
  }

  predicate InputIsOpen(files: Files) {
    exists fd :: fd in files && files[fd].isInput
  }

  /** What the wrappers do not keep up with: a second descriptor for the input file, the number of
      the closed input file given to another file, an incomplete element of the input, and a change of
      position that the C library does not tell. */
  predicate Loses(files: Files, cursor: Cursor, call: Call) {
    match call
    case Open(fd, isInput) => if isInput then InputIsOpen(files) else fd == cursor.inputFileDescriptor
    case Fread(fd, _, _, _, partial) => partial != 0 && fd in files && files[fd].isInput
    case SeekUntold(fd, position) => fd in files && files[fd].isInput && position != cursor.inputOffset
    case _ => false
  }

  /** A call keeps the cursor in step if and only if it is none of those. */
  lemma StaysInStepIff(files: Files, cursor: Cursor, call: Call)
    requires InStep(files, cursor) && Possible(files, call)
    ensures InStep(FilesAfter(files, call), CursorAfter(cursor, call)) <==> !Loses(files, cursor, call)
  {
    var files', cursor' := FilesAfter(files, call), CursorAfter(cursor, call);
    match call
    case Open(fd, isInput) =>
      assert fd in files';
      if isInput && InputIsOpen(files) {
        var other :| other in files && files[other].isInput;
        assert other in files';
      }
    case Fread(fd, _, size, elements, partial) =>
      assert fd in files';
    case SeekUntold(fd, _) =>
      assert fd in files';
    case _ =>
  }

  function FilesRun(files: Files, calls: seq<Call>): Files {
    if calls == [] then files else FilesAfter(FilesRun(files, calls[..|calls| - 1]), calls[|calls| - 1])
  }

  function CursorRun(cursor: Cursor, calls: seq<Call>): Cursor {
    if calls == [] then cursor else CursorAfter(CursorRun(cursor, calls[..|calls| - 1]), calls[|calls| - 1])
  }

  ghost predicate TrackedRun(files: Files, cursor: Cursor, calls: seq<Call>) {
    forall k | 0 <= k < |calls| ::
      Possible(FilesRun(files, calls[..k]), calls[k])
      && !Loses(FilesRun(files, calls[..k]), CursorRun(cursor, calls[..k]), calls[k])
  }

  /** Over any run without such calls the cursor is the position of the input file. */
  lemma {:induction false} CursorIsPosition(files: Files, cursor: Cursor, calls: seq<Call>)
    requires InStep(files, cursor) && TrackedRun(files, cursor, calls)
    ensures InStep(FilesRun(files, calls), CursorRun(cursor, calls))
  {
    hide Loses, InStep, Possible, FilesAfter, CursorAfter;
    if calls != [] {
      var n := |calls| - 1;
      forall k | 0 <= k < n
        ensures Possible(FilesRun(files, calls[..n][..k]), calls[..n][k])
        ensures !Loses(FilesRun(files, calls[..n][..k]), CursorRun(cursor, calls[..n][..k]), calls[..n][k])
      {
        assert calls[..n][..k] == calls[..k];
      }
      CursorIsPosition(files, cursor, calls[..n]);
      StaysInStepIff(FilesRun(files, calls[..n]), CursorRun(cursor, calls[..n]), calls[n]);
    }
  }

  /** Every byte that is read gets the expression of its own place in the input file; bytes from other
      files get none. */
  lemma EachByteItsOwn(files: Files, cursor: Cursor, sh: ShadowMap, fd: nat, buf: nat, count: nat, i: nat)
    requires InStep(files, cursor) && fd in files && i < count
    ensures CellAt(ReadShadowAfter(cursor, sh, fd, buf, count), buf + i)
         == if files[fd].isInput then Some(InputByte(files[fd].position + i)) else None
  {
    hide WriteInput, Clear;
    WriteInputAt(sh, buf, cursor.inputOffset, count, buf + i);
    FillShadowAt(sh, buf, count, None, buf + i);
  }

  /** After a descriptor number is reused, bytes of another file are taken for input bytes. */
  lemma ReuseConfuses(sh: ShadowMap, buf: nat)
    ensures var calls := [Open(3, true), Close(3), Open(3, false)];
      var files, cursor := FilesRun(map[], calls), CursorRun(Cursor(-1, 0), calls);
      && (forall k | 0 <= k < 3 :: Possible(FilesRun(map[], calls[..k]), calls[k]))
      && 3 in files && !files[3].isInput
      && CellAt(ReadShadowAfter(cursor, sh, 3, buf, 1), buf) == Some(InputByte(0))
  {
    hide WriteInput;
    var calls := [Open(3, true), Close(3), Open(3, false)];
    assert calls[..3] == calls && calls[..3][..2] == calls[..2] && calls[..2][..1] == calls[..1]
        && calls[..1][..0] == [];
    var noFiles: Files := map[];
    assert FilesRun(noFiles, calls[..1]) == map[3 := OpenFile(true, 0)];
    assert FilesRun(noFiles, calls[..2]) == map[];
    assert FilesRun(noFiles, calls) == map[3 := OpenFile(false, 0)];
    assert CursorRun(Cursor(-1, 0), calls) == Cursor(3, 0);
    WriteInputAt(sh, buf, 0, 1, buf);
  }

  /** What getc returns evaluates to the byte that was read. */
  lemma GetcMeaning(inp: Input, offset: nat)
    requires offset < |inp|
    ensures SortOf(ZeroExtend(24, InputByte(offset))) == BitVec(32)
    ensures Eval(ZeroExtend(24, InputByte(offset)), inp) == inp[offset]
  {
  }
}
