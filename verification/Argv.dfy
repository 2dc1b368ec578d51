/** The initial user stack of a program, and the kernel's reader of argument vectors. */
module Argv {
  import opened Basics
  import opened LittleEndian
  import opened PageTree
  import opened AddressSpace
  import opened FrameAlloc
  import opened Walker
  import opened UserBytes
  import opened Syscalls
  import opened Elf

  // ---- Little-endian words

  /** A slice of words as the bytes that copy_u64_slice_to_user stores. */
  function WordBytes(words: seq<nat>): (b: seq<byte>)
    ensures |b| == 8 * |words|
  {
    if words == [] then [] else LittleBytes(words[0], 8) + WordBytes(words[1..])
  }

  lemma {:induction false} WordSlice(words: seq<nat>, i: nat)
    requires i < |words|
    ensures WordBytes(words)[8 * i..8 * i + 8] == LittleBytes(words[i], 8)
  {
    if i > 0 {
      WordSlice(words[1..], i - 1);
      var b := WordBytes(words[1..]);
      assert WordBytes(words)[8 * i..8 * i + 8] == b[8 * (i - 1)..8 * (i - 1) + 8];
    }
  }

  // ---- Reading an argument vector

  datatype ArgError = NullArgument | ArgumentTooLong | TooManyArguments | PageFault

  /** What the kernel reads at an address of the current address space, in either half; None is a page fault. */
  type Reader = nat -> Option<byte>

  /** The user half reads as the process's tree says. */
  ghost predicate Sees(read: Reader, m: Mem, root: nat) {
    forall va: nat {:trigger read(va)} | va < USER_TOP :: read(va) == ByteAt(m, root, va)
  }

  /** The string at p, if it ends within the next left bytes. */
  function CstrFrom(read: Reader, p: nat, left: nat): Result<seq<byte>, ArgError>
    decreases left, p
  {
    if left == 0 then Err(ArgumentTooLong)
    else match read(p)
      case None => Err(PageFault)
      case Some(b) =>
        if b == 0 then Ok([])
        else match CstrFrom(read, p + 1, left - 1)
          case Err(e) => Err(e)
          case Ok(s) => Ok([b] + s)
  }

  /** The n bytes at p, if none of them faults. */
  function BytesFrom(read: Reader, p: nat, n: nat): (r: Option<seq<byte>>)
    ensures r.Some? ==> |r.value| == n
    decreases n, p
  {
    if n == 0 then Some([])
    else match read(p)
      case None => None
      case Some(b) =>
        match BytesFrom(read, p + 1, n - 1)
        case None => None
        case Some(rest) => Some([b] + rest)
  }

  /** The machine word at p. */
  function WordAt(read: Reader, p: nat): Option<nat> {
    match BytesFrom(read, p, 8)
    case None => None
    case Some(b) => Some(Little(b))
  }

  function ArgvFrom(read: Reader, p: nat, left: nat): Result<seq<seq<byte>>, ArgError>
    decreases left, p
  {
    if left == 0 then Err(TooManyArguments)
    else match WordAt(read, p)
      case None => Err(PageFault)
      case Some(q) =>
        if q == 0 then Ok([])
        else match CstrFrom(read, q, MAX_ARG_LEN)
          case Err(e) => Err(e)
          case Ok(arg) =>
            match ArgvFrom(read, p + 8, left - 1)
            case Err(e) => Err(e)
            case Ok(rest) => Ok([arg] + rest)
  }

  method CopyCstrFromUser(read: Reader, ptr: nat, maxLen: nat) returns (r: Result<seq<byte>, ArgError>)
    ensures r == if ptr == 0 then Err(NullArgument) else CstrFrom(read, ptr, maxLen)
  {
    if ptr == 0 {
      return Err(NullArgument);
    }
    var bytes := [];
    PrependNothing(CstrFrom(read, ptr, maxLen));
    for i := 0 to maxLen
      invariant |bytes| == i
      invariant CstrFrom(read, ptr, maxLen) == Prepend(bytes, CstrFrom(read, ptr + i, maxLen - i))
    {
      var b := read(ptr + i);
      if b.None? {
        return Err(PageFault);
      }
      if b.value == 0 {
        assert bytes + [] == bytes;
        return Ok(bytes);
      }
      PrependStep(bytes, b.value, CstrFrom(read, ptr + i + 1, maxLen - i - 1));
      bytes := bytes + [b.value];
    }
    r := Err(ArgumentTooLong);
  }

  function Prepend<T>(done: seq<T>, rest: Result<seq<T>, ArgError>): Result<seq<T>, ArgError> {
    match rest
    case Err(e) => Err(e)
    case Ok(s) => Ok(done + s)
  }

  lemma PrependNothing<T>(rest: Result<seq<T>, ArgError>)
    ensures Prepend([], rest) == rest
  {
    if rest.Ok? {
      assert [] + rest.value == rest.value;
    }
  }

  lemma PrependStep<T>(done: seq<T>, x: T, rest: Result<seq<T>, ArgError>)
    ensures Prepend(done, Prepend([x], rest)) == Prepend(done + [x], rest)
  {
    if rest.Ok? {
      assert done + ([x] + rest.value) == done + [x] + rest.value;
    }
  }

  method CopyArgv(read: Reader, argvPtr: nat) returns (r: Result<seq<seq<byte>>, ArgError>)
    ensures r == if argvPtr == 0 then Ok([]) else ArgvFrom(read, argvPtr, MAX_ARGC)
  {
    hide WordAt, CstrFrom;
    var argv := [];
    if argvPtr == 0 {
      return Ok(argv);
    }
    PrependNothing(ArgvFrom(read, argvPtr, MAX_ARGC));
    for i := 0 to MAX_ARGC
      invariant ArgvFrom(read, argvPtr, MAX_ARGC) == Prepend(argv, ArgvFrom(read, argvPtr + 8 * i, MAX_ARGC - i))
    {
      var argPtr := WordAt(read, argvPtr + 8 * i);
      if argPtr.None? {
        return Err(PageFault);
      }
      if argPtr.value == 0 {
        assert argv + [] == argv;
        return Ok(argv);
      }
      var arg := CopyCstrFromUser(read, argPtr.value, MAX_ARG_LEN);
      if arg.Err? {
        return Err(arg.error);
      }
      PrependStep(argv, arg.value, ArgvFrom(read, argvPtr + 8 * i + 8, MAX_ARGC - i - 1));
      argv := argv + [arg.value];
    }
    r := Err(TooManyArguments);
  }

  // ---- Round trip of what the stack holds

  /** These bytes are read from p on. */
  ghost predicate ReadsAs(read: Reader, p: nat, bytes: seq<byte>) {
    forall va: nat {:trigger read(va)} | p <= va < p + |bytes| :: read(va) == Some(bytes[va - p])
  }

  lemma SeesHeld(read: Reader, m: Mem, root: nat, p: nat, bytes: seq<byte>)
    requires Sees(read, m, root) && Holds(m, root, p, bytes)
    ensures ReadsAs(read, p, bytes)
  {
    forall va: nat | p <= va < p + |bytes| ensures read(va) == Some(bytes[va - p]) {
      assert ByteAt(m, root, va) == Some(bytes[va - p]);
    }
  }

  /** A string with its terminator is read back exactly if it is short enough and has no zero byte in it. */
  lemma {:induction false} StringRead(read: Reader, p: nat, s: seq<byte>, left: nat)
    requires ReadsAs(read, p, s + [0])
    ensures CstrFrom(read, p, left) == Ok(s) <==> |s| < left && 0 !in s
    decreases |s|
  {
    if left > 0 {
      assert read(p) == Some((s + [0])[0]);
      if s != [] {
        assert (s + [0])[1..|s| + 1] == s[1..] + [0];
        ReadsAsPart(read, p, s + [0], 1, |s| + 1);
        StringRead(read, p + 1, s[1..], left - 1);
        assert s == [s[0]] + s[1..];
      }
    }
  }

  lemma {:induction false} BytesRead(read: Reader, p: nat, bytes: seq<byte>)
    requires ReadsAs(read, p, bytes)
    ensures BytesFrom(read, p, |bytes|) == Some(bytes)
    decreases |bytes|
  {
    if bytes != [] {
      assert read(p) == Some(bytes[0]);
      ReadsAsPart(read, p, bytes, 1, |bytes|);
      BytesRead(read, p + 1, bytes[1..]);
      assert bytes == [bytes[0]] + bytes[1..];
    }
  }

  lemma ReadsAsPart(read: Reader, p: nat, bytes: seq<byte>, lo: nat, hi: nat)
    requires ReadsAs(read, p, bytes) && lo <= hi <= |bytes|
    ensures ReadsAs(read, p + lo, bytes[lo..hi])
  {
    forall va: nat | p + lo <= va < p + hi ensures read(va) == Some(bytes[lo..hi][va - (p + lo)]) {
      assert bytes[lo..hi][va - (p + lo)] == bytes[va - p];
    }
  }

  lemma WordReadsAs(read: Reader, p: nat, b: seq<byte>)
    requires ReadsAs(read, p, b) && |b| == 8
    ensures WordAt(read, p) == Some(Little(b))
  {
    hide ReadsAs, Little;
    BytesRead(read, p, b);
  }

  lemma WordRead(read: Reader, p: nat, words: seq<nat>, i: nat)
    requires ReadsAs(read, p, WordBytes(words)) && i < |words| && words[i] < WORD
    ensures WordAt(read, p + 8 * i) == Some(words[i])
  {
    hide *;
    WordSlice(words, i);
    ReadsAsPart(read, p, WordBytes(words), 8 * i, 8 * i + 8);
    WordReadsAs(read, p + 8 * i, LittleBytes(words[i], 8));
    WordRoundTrip(words[i]);
  }

  /** The strings of argv lie at the addresses ptrs, each with its terminating zero. */
  ghost predicate StringsAt(read: Reader, ptrs: seq<nat>, argv: seq<seq<byte>>) {
    && |ptrs| == |argv|
    && (forall i | 0 <= i < |argv| :: 0 < ptrs[i] < WORD && ReadsAs(read, ptrs[i], argv[i] + [0]))
  }

  lemma ReadableMeans(argv: seq<seq<byte>>)
    ensures Readable(argv) <==> forall i | 0 <= i < |argv| :: |argv[i]| <= 255 && 0 !in argv[i]
  {}

  predicate Readable(argv: seq<seq<byte>>) {
    forall i | 0 <= i < |argv| :: |argv[i]| < MAX_ARG_LEN && 0 !in argv[i]
  }

  /** Reading from element k on yields the rest of argv exactly if there are slots left for it and its
    * terminator, and every remaining string is short enough and free of zeros. */
  lemma {:induction false} ArgvRead(read: Reader, p: nat, ptrs: seq<nat>, argv: seq<seq<byte>>, k: nat, left: nat)
    requires StringsAt(read, ptrs, argv) && k <= |argv|
    requires ReadsAs(read, p, WordBytes(ptrs + [0]))
    ensures ArgvFrom(read, p + 8 * k, left) == Ok(argv[k..]) <==> |argv| - k < left && Readable(argv[k..])
    decreases |argv| - k
  {
    hide WordAt, ReadsAs, CstrFrom, Readable;
    if left > 0 {
      WordRead(read, p, ptrs + [0], k);
      ReadableEmpty();
      if k < |argv| {
        StringRead(read, ptrs[k], argv[k], MAX_ARG_LEN);
        ArgvRead(read, p, ptrs, argv, k + 1, left - 1);
        DropOne(argv, k);
        ReadableSplit(argv[k..]);
        var first := CstrFrom(read, ptrs[k], MAX_ARG_LEN);
        var rest := ArgvFrom(read, p + 8 * (k + 1), left - 1);
        if first.Ok? && rest.Ok? {
          ConsEqual(first.value, argv[k], rest.value, argv[k + 1..]);
        }
      }
    }
  }

  lemma DropOne<T>(s: seq<T>, k: nat)
    requires k < |s|
    ensures s[k..] == [s[k]] + s[k + 1..] && s[k..][1..] == s[k + 1..]
  {}

  lemma ReadableEmpty()
    ensures Readable([])
  {}

  lemma ConsEqual<T>(x: T, y: T, a: seq<T>, b: seq<T>)
    ensures [x] + a == [y] + b <==> x == y && a == b
  {
    if [x] + a == [y] + b {
      assert ([x] + a)[0] == ([y] + b)[0];
      assert ([x] + a)[1..] == a && ([y] + b)[1..] == b;
    }
  }

  lemma ReadableSplit(argv: seq<seq<byte>>)
    requires argv != []
    ensures Readable(argv) <==> |argv[0]| < MAX_ARG_LEN && 0 !in argv[0] && Readable(argv[1..])
  {
    if |argv[0]| < MAX_ARG_LEN && 0 !in argv[0] && Readable(argv[1..]) {
      forall i | 0 <= i < |argv| ensures |argv[i]| < MAX_ARG_LEN && 0 !in argv[i] {
        if i > 0 {
          assert argv[1..][i - 1] == argv[i];
        }
      }
    }
    if Readable(argv) {
      forall i | 0 <= i < |argv[1..]| ensures |argv[1..][i]| < MAX_ARG_LEN && 0 !in argv[1..][i] {
        assert argv[1..][i] == argv[i + 1];
      }
    }
  }

  // ---- Writing the initial stack

  /** User memory outside lo..hi, and the mapping, are as before. */
  ghost predicate ChangedOnly(m: Mem, m': Mem, root: nat, lo: nat, hi: nat) {
    && SameMapping(m, m', root)
    && (forall va: nat {:trigger ByteAt(m', root, va)} | va < USER_TOP && !(lo <= va < hi) ::
          ByteAt(m', root, va) == ByteAt(m, root, va))
  }

  /** The first |ptrs| strings are stored below top, each below the one before and not overlapping it. */
  ghost predicate Placed(m: Mem, root: nat, ptrs: seq<nat>, argv: seq<seq<byte>>, sp: nat, top: nat) {
    && |ptrs| <= |argv| && sp <= top <= USER_TOP
    && (forall i | 0 <= i < |ptrs| ::
          sp <= ptrs[i] && ptrs[i] + |argv[i]| + 1 <= top && ptrs[i] % 8 == 0 && Holds(m, root, ptrs[i], argv[i] + [0]))
    && (forall i, j | 0 <= i < j < |ptrs| :: ptrs[j] + |argv[j]| + 1 <= ptrs[i])
  }

  lemma StoredHolds(m: Mem, m': Mem, root: nat, dst: nat, data: seq<byte>)
    requires Stored(m, m', root, dst, data, |data|) && dst + |data| <= USER_TOP
    ensures Holds(m', root, dst, data)
  {
    hide ByteAt, SameMapping;
  }

  lemma HoldsKept(m: Mem, m': Mem, root: nat, lo: nat, hi: nat, p: nat, bytes: seq<byte>)
    requires ChangedOnly(m, m', root, lo, hi) && Holds(m, root, p, bytes) && p + |bytes| <= USER_TOP
    requires p + |bytes| <= lo || hi <= p
    ensures Holds(m', root, p, bytes)
  {
    hide ByteAt, SameMapping;
    forall va: nat | p <= va < p + |bytes| ensures ByteAt(m', root, va) == Some(bytes[va - p]) {
      assert ByteAt(m', root, va) == ByteAt(m, root, va);
    }
  }

  lemma StoredChanged(m: Mem, m': Mem, root: nat, dst: nat, data: seq<byte>)
    requires Stored(m, m', root, dst, data, |data|)
    ensures ChangedOnly(m, m', root, dst, dst + |data|)
  {
    hide ByteAt, SameMapping;
  }

  lemma ChangedJoin(m0: Mem, m1: Mem, m2: Mem, root: nat, lo1: nat, hi1: nat, lo2: nat, hi2: nat, lo: nat, hi: nat)
    requires ChangedOnly(m0, m1, root, lo1, hi1) && ChangedOnly(m1, m2, root, lo2, hi2)
    requires lo <= lo1 && lo <= lo2 && hi1 <= hi && hi2 <= hi
    ensures ChangedOnly(m0, m2, root, lo, hi)
  {
    hide ByteAt, View;
    forall va: nat | va < USER_TOP && !(lo <= va < hi) ensures ByteAt(m2, root, va) == ByteAt(m0, root, va) {
      assert ByteAt(m1, root, va) == ByteAt(m0, root, va);
    }
    forall n: nat | n < USER_PAGES
      ensures View(m2, root, n).Some? == View(m0, root, n).Some?
      ensures View(m0, root, n).Some? ==>
        && View(m2, root, n).value.frame == View(m0, root, n).value.frame
        && View(m2, root, n).value.flags == View(m0, root, n).value.flags
    {
      assert View(m1, root, n) == View(m1, root, n);
    }
  }

  lemma ChangedNothing(m: Mem, root: nat, at: nat)
    ensures ChangedOnly(m, m, root, at, at)
  {
    hide ByteAt, View;
  }

  /** A string and its terminator, stored one after the other. */
  lemma StringStored(m0: Mem, m1: Mem, m2: Mem, root: nat, p: nat, s: seq<byte>)
    requires p + |s| + 1 <= USER_TOP
    requires Stored(m0, m1, root, p, s, |s|) && Stored(m1, m2, root, p + |s|, [0], 1)
    ensures Holds(m2, root, p, s + [0]) && ChangedOnly(m0, m2, root, p, p + |s| + 1)
  {
    hide ByteAt, SameMapping, Holds;
    StoredHolds(m0, m1, root, p, s);
    StoredHolds(m1, m2, root, p + |s|, [0]);
    StoredChanged(m0, m1, root, p, s);
    StoredChanged(m1, m2, root, p + |s|, [0]);
    HoldsKept(m1, m2, root, p + |s|, p + |s| + 1, p, s);
    ChangedJoin(m0, m1, m2, root, p, p + |s|, p + |s|, p + |s| + 1, p, p + |s| + 1);
    HoldsJoin(m2, root, p, s, [0]);
  }

  lemma HoldsJoin(m: Mem, root: nat, p: nat, a: seq<byte>, b: seq<byte>)
    requires Holds(m, root, p, a) && Holds(m, root, p + |a|, b)
    ensures Holds(m, root, p, a + b)
  {
    hide ByteAt;
  }

  lemma PlacedKept(m: Mem, m': Mem, root: nat, ptrs: seq<nat>, argv: seq<seq<byte>>, sp: nat, top: nat, lo: nat,
                   hi: nat)
    requires Placed(m, root, ptrs, argv, sp, top) && ChangedOnly(m, m', root, lo, hi) && hi <= sp
    ensures Placed(m', root, ptrs, argv, sp, top)
  {
    hide Holds, ChangedOnly;
    forall i | 0 <= i < |ptrs| ensures Holds(m', root, ptrs[i], argv[i] + [0]) {
      HoldsKept(m, m', root, lo, hi, ptrs[i], argv[i] + [0]);
    }
  }

  lemma PlacedMore(m: Mem, root: nat, ptrs: seq<nat>, argv: seq<seq<byte>>, sp: nat, sp': nat, top: nat)
    requires Placed(m, root, ptrs, argv, sp, top) && |ptrs| < |argv|
    requires sp' + |argv[|ptrs|]| + 1 <= sp && sp' % 8 == 0
    requires Holds(m, root, sp', argv[|ptrs|] + [0])
    ensures Placed(m, root, ptrs + [sp'], argv, sp', top)
  {
    hide Holds;
  }

  method StoreString(pm: PhysMem, fa: FrameAllocator, root: nat, p: nat, s: seq<byte>) returns (ok: bool)
    requires fa.Valid() && Owns(pm.mem, fa.out, root) && p + |s| + 1 <= USER_TOP
    modifies pm, fa
    ensures fa.Valid() && unchanged(fa) && OnlyPages(old(pm.mem), pm.mem, root, fa.out) && Owns(pm.mem, fa.out, root)
    ensures ok ==> Holds(pm.mem, root, p, s + [0]) && ChangedOnly(old(pm.mem), pm.mem, root, p, p + |s| + 1)
    ensures AllAllowed(old(pm.mem), root, Kernel, p, |s| + 1) ==> ok
  {
    hide *;
    ghost var m0 := pm.mem;
    OnlyPagesReflexive(m0, root, fa.out);
    AllowedParts(m0, root, p, |s|);
    var r := CopyToUserPagetable(pm, fa, root, p, s);
    OnlyPagesStep(m0, m0, pm.mem, root, fa.out);
    if r.Err? {
      return false;
    }
    ghost var m1 := pm.mem;
    if AllAllowed(m0, root, Kernel, p + |s|, 1) {
      StoredAllowedAt(m0, m1, root, p, s, p + |s|);
    }
    r := CopyToUserPagetable(pm, fa, root, p + |s|, [0]);
    OnlyPagesStep(m0, m1, pm.mem, root, fa.out);
    if r.Err? {
      return false;
    }
    StringStored(m0, m1, pm.mem, root, p, s);
    ok := true;
  }

  lemma AllowedParts(m: Mem, root: nat, p: nat, len: nat)
    ensures AllAllowed(m, root, Kernel, p, len + 1) ==>
      AllAllowed(m, root, Kernel, p, len) && AllAllowed(m, root, Kernel, p + len, 1)
  {
    hide View, Allowed;
  }

  lemma StoredAllowedAt(m: Mem, m': Mem, root: nat, dst: nat, data: seq<byte>, p: nat)
    requires Stored(m, m', root, dst, data, |data|) && AllAllowed(m, root, Kernel, p, 1) && p < USER_TOP
    ensures AllAllowed(m', root, Kernel, p, 1)
  {
    hide View, Allowed;
    AllowedKept(m, m', root, Kernel, p / PAGE_SIZE);
  }

  lemma AllowedAfter(m: Mem, m': Mem, root: nat, lo: nat, hi: nat, p: nat, len: nat)
    requires ChangedOnly(m, m', root, lo, hi) && AllAllowed(m, root, Kernel, p, len) && p + len <= USER_TOP
    ensures AllAllowed(m', root, Kernel, p, len)
  {
    hide View, Allowed;
    forall va: nat | p <= va < p + len ensures Allowed(Kernel, View(m', root, va / PAGE_SIZE)) {
      AllowedKept(m, m', root, Kernel, va / PAGE_SIZE);
    }
  }

  lemma AllowedWithin(m: Mem, root: nat, p: nat, len: nat, p': nat, len': nat)
    requires AllAllowed(m, root, Kernel, p, len) && p <= p' && p' + len' <= p + len
    ensures AllAllowed(m, root, Kernel, p', len')
  {
    hide View, Allowed;
  }

  method CopyU64SliceToUser(pm: PhysMem, fa: FrameAllocator, root: nat, dst: nat,
                            data: seq<nat>) returns (r: Result<(), CopyError>)
    requires fa.Valid() && Owns(pm.mem, fa.out, root) && dst + 8 * |data| <= USER_TOP
    modifies pm, fa
    ensures fa.Valid() && unchanged(fa) && OnlyPages(old(pm.mem), pm.mem, root, fa.out) && Owns(pm.mem, fa.out, root)
    ensures r.Ok? ==>
      Holds(pm.mem, root, dst, WordBytes(data)) && ChangedOnly(old(pm.mem), pm.mem, root, dst, dst + 8 * |data|)
    ensures AllAllowed(old(pm.mem), root, Kernel, dst, 8 * |data|) ==> r.Ok?
  {
    hide *;
    ghost var m0 := pm.mem;
    OnlyPagesReflexive(m0, root, fa.out);
    r := CopyToUserPagetable(pm, fa, root, dst, WordBytes(data));
    OnlyPagesStep(m0, m0, pm.mem, root, fa.out);
    if r.Ok? {
      StoredHolds(m0, pm.mem, root, dst, WordBytes(data));
      StoredChanged(m0, pm.mem, root, dst, WordBytes(data));
    }
  }

  // ---- setup_user_stack

  const STACK_BYTES: nat := 8 * 4096

  /** The size limits that the kernel's readers put on what reaches exec. */
  predicate WithinLimits(argv: seq<seq<byte>>) {
    |argv| < MAX_ARGC && forall i | 0 <= i < |argv| :: |argv[i]| < MAX_ARG_LEN
  }

  /** The stack pages below top are mapped. */
  ghost predicate StackMapped(m: Mem, root: nat, top: nat) {
    top >= STACK_BYTES && AllAllowed(m, root, Kernel, top - STACK_BYTES, STACK_BYTES)
  }

  /** The finished stack: initial frame, pointer array and strings, from low to high, none overlapping. */
  ghost predicate StackBuilt(m: Mem, root: nat, ptrs: seq<nat>, argv: seq<seq<byte>>, sp: nat, argvPtr: nat, top: nat) {
    && |ptrs| == |argv|
    && Placed(m, root, ptrs, argv, argvPtr + 8 * (|argv| + 1), top)
    && argvPtr % 16 == 0 && sp + 24 == argvPtr
    && Holds(m, root, argvPtr, WordBytes(ptrs + [0]))
    && Holds(m, root, sp, WordBytes([0xFFFF_FFFF_FFFF_FFFF, |argv|, argvPtr]))
  }

  method PlaceStrings(pm: PhysMem, fa: FrameAllocator, root: nat, argv: seq<seq<byte>>, stackTop: nat)
    returns (r: Result<(nat, seq<nat>), ExecError>)
    requires fa.Valid() && Owns(pm.mem, fa.out, root) && stackTop <= USER_TOP
    modifies pm, fa
    ensures fa.Valid() && unchanged(fa) && OnlyPages(old(pm.mem), pm.mem, root, fa.out) && Owns(pm.mem, fa.out, root)
    ensures r.Ok? ==>
      var (sp, ptrs) := r.value;
      && |ptrs| == |argv| && Placed(pm.mem, root, ptrs, argv, sp, stackTop)
      && ChangedOnly(old(pm.mem), pm.mem, root, sp, stackTop)
      && (WithinLimits(argv) ==> stackTop - sp <= 263 * |argv|)
    ensures WithinLimits(argv) && StackMapped(old(pm.mem), root, stackTop) ==> r.Ok?
  {
    hide *;
    ghost var m0 := pm.mem;
    OnlyPagesReflexive(m0, root, fa.out);
    StackMappedAbove(m0, root, stackTop);
    ChangedNothing(m0, root, stackTop);
    PlacedNothing(m0, root, argv, stackTop);
    var sp: nat := stackTop;
    var ptrs: seq<nat> := [];
    for i := 0 to |argv|
      invariant fa.Valid() && unchanged(fa) && OnlyPages(m0, pm.mem, root, fa.out) && Owns(pm.mem, fa.out, root)
      invariant |ptrs| == i && sp <= stackTop
      invariant Placed(pm.mem, root, ptrs, argv, sp, stackTop)
      invariant ChangedOnly(m0, pm.mem, root, sp, stackTop)
      invariant WithinLimits(argv) ==> stackTop - sp <= 263 * i
    {
      var arg := argv[i];
      var argLen := |arg| + 1;
      if sp < argLen {
        LimitsFit(argv, i, stackTop - sp);
        return Err(StackOverflow);
      }
      ghost var m, sp0 := pm.mem, sp;
      sp := (sp - argLen) / 8 * 8;
      LimitsFit(argv, i, stackTop - sp0);
      PlacedBelowTop(m, root, ptrs, argv, sp0, stackTop);
      if WithinLimits(argv) && StackMapped(m0, root, stackTop) {
        StackSpace(m0, m, root, sp0, stackTop, sp, argLen);
      }
      var ok := StoreString(pm, fa, root, sp, arg);
      OnlyPagesStep(m0, m, pm.mem, root, fa.out);
      if !ok {
        return Err(CopyFailed);
      }
      PlacedKept(m, pm.mem, root, ptrs, argv, sp0, stackTop, sp, sp + argLen);
      PlacedMore(pm.mem, root, ptrs, argv, sp0, sp, stackTop);
      ChangedJoin(m0, m, pm.mem, root, sp0, stackTop, sp, sp + argLen, sp, stackTop);
      ptrs := ptrs + [sp];
    }
    r := Ok((sp, ptrs));
  }

  lemma StackMappedAbove(m: Mem, root: nat, top: nat)
    ensures StackMapped(m, root, top) ==> top >= STACK_BYTES
  {}

  lemma PlacedNothing(m: Mem, root: nat, argv: seq<seq<byte>>, top: nat)
    requires top <= USER_TOP
    ensures Placed(m, root, [], argv, top, top)
  {}

  lemma PlacedBelowTop(m: Mem, root: nat, ptrs: seq<nat>, argv: seq<seq<byte>>, sp: nat, top: nat)
    requires Placed(m, root, ptrs, argv, sp, top)
    ensures sp <= top <= USER_TOP
  {}

  /** Short argument lists leave room: after i strings at most 263 i bytes are used. */
  lemma LimitsFit(argv: seq<seq<byte>>, i: nat, used: nat)
    requires i < |argv|
    ensures WithinLimits(argv) && used <= 263 * i ==>
      used + |argv[i]| + 1 + 7 <= 263 * (i + 1) <= 263 * 15 < STACK_BYTES
  {}

  lemma StackSpace(m0: Mem, m: Mem, root: nat, sp0: nat, top: nat, p: nat, len: nat)
    requires top <= USER_TOP && StackMapped(m0, root, top) && ChangedOnly(m0, m, root, sp0, top)
    ensures top >= STACK_BYTES
    ensures top - STACK_BYTES <= p && p + len <= top ==> AllAllowed(m, root, Kernel, p, len)
  {
    hide View, Allowed, ChangedOnly;
    AllowedAfter(m0, m, root, sp0, top, top - STACK_BYTES, STACK_BYTES);
    if top - STACK_BYTES <= p && p + len <= top {
      AllowedWithin(m, root, top - STACK_BYTES, STACK_BYTES, p, len);
    }
  }

  /** Builds the initial stack: strings, pointer array, and the frame [-1, argc, argv]. */
  method SetupUserStack(pm: PhysMem, fa: FrameAllocator, root: nat, argv: seq<seq<byte>>, stackTop: nat)
    returns (r: Result<(nat, nat, nat), ExecError>, ghost strings: seq<nat>)
    requires fa.Valid() && Owns(pm.mem, fa.out, root) && stackTop <= USER_TOP
    modifies pm, fa
    ensures fa.Valid() && unchanged(fa) && OnlyPages(old(pm.mem), pm.mem, root, fa.out) && Owns(pm.mem, fa.out, root)
    ensures r.Ok? ==>
      var (sp, argc, argvPtr) := r.value;
      && argc == |argv| && sp % 16 == 8
      && StackBuilt(pm.mem, root, strings, argv, sp, argvPtr, stackTop)
      && ChangedOnly(old(pm.mem), pm.mem, root, sp, stackTop)
    ensures WithinLimits(argv) && StackMapped(old(pm.mem), root, stackTop) ==>
      r.Ok? && stackTop - STACK_BYTES <= r.value.0
  {
    hide *;
    ghost var m0 := pm.mem;
    StackMappedAbove(m0, root, stackTop);
    var placed := PlaceStrings(pm, fa, root, argv, stackTop);
    ghost var m1 := pm.mem;
    if placed.Err? {
      return Err(placed.error), [];
    }
    var sp0, ptrs := placed.value.0, placed.value.1 + [0];
    strings := placed.value.1;
    PlacedBelowTop(m1, root, strings, argv, sp0, stackTop);
    ArgcFits(argv);
    if sp0 < 8 * |ptrs| {
      return Err(StackOverflow), strings;
    }
    var argvPtr := (sp0 - 8 * |ptrs|) / 16 * 16;
    if WithinLimits(argv) && StackMapped(m0, root, stackTop) {
      StackSpace(m0, m1, root, sp0, stackTop, argvPtr, 8 * |ptrs|);
    }
    var pointers := CopyU64SliceToUser(pm, fa, root, argvPtr, ptrs);
    OnlyPagesStep(m0, m1, pm.mem, root, fa.out);
    ghost var m2 := pm.mem;
    if pointers.Err? || argvPtr < 24 {
      return Err(if pointers.Err? then CopyFailed else StackOverflow), strings;
    }
    ChangedJoin(m0, m1, m2, root, sp0, stackTop, argvPtr, argvPtr + 8 * |ptrs|, argvPtr, stackTop);
    var sp := argvPtr - 24;
    if WithinLimits(argv) && StackMapped(m0, root, stackTop) {
      StackSpace(m0, m2, root, argvPtr, stackTop, sp, 24);
    }
    var frame := [0xFFFF_FFFF_FFFF_FFFF, |argv|, argvPtr];
    var ustack := CopyU64SliceToUser(pm, fa, root, sp, frame);
    OnlyPagesStep(m0, m2, pm.mem, root, fa.out);
    if ustack.Err? {
      return Err(CopyFailed), strings;
    }
    ChangedJoin(m0, m2, pm.mem, root, argvPtr, stackTop, sp, argvPtr, sp, stackTop);
    StackFinished(m1, m2, pm.mem, root, strings, argv, sp0, sp, argvPtr, stackTop);
    r := Ok((sp, |argv|, argvPtr));
  }

  lemma ArgcFits(argv: seq<seq<byte>>)
    ensures WithinLimits(argv) ==> 263 * |argv| + 8 * (|argv| + 1) + 16 + 24 < STACK_BYTES
  {}

  lemma StackFinished(m1: Mem, m2: Mem, m3: Mem, root: nat, ptrs: seq<nat>, argv: seq<seq<byte>>, sp0: nat, sp: nat,
                      argvPtr: nat, top: nat)
    requires |ptrs| == |argv| && Placed(m1, root, ptrs, argv, sp0, top)
    requires argvPtr % 16 == 0 && argvPtr + 8 * (|argv| + 1) <= sp0 && sp + 24 == argvPtr
    requires ChangedOnly(m1, m2, root, argvPtr, argvPtr + 8 * (|argv| + 1)) && ChangedOnly(m2, m3, root, sp, argvPtr)
    requires Holds(m2, root, argvPtr, WordBytes(ptrs + [0]))
    requires Holds(m3, root, sp, WordBytes([0xFFFF_FFFF_FFFF_FFFF, |argv|, argvPtr]))
    ensures StackBuilt(m3, root, ptrs, argv, sp, argvPtr, top)
  {
    hide Holds, ChangedOnly, WordBytes, LittleBytes;
    PlacedKept(m1, m2, root, ptrs, argv, sp0, top, argvPtr, argvPtr + 8 * (|argv| + 1));
    PlacedKept(m2, m3, root, ptrs, argv, sp0, top, sp, argvPtr);
    HoldsKept(m2, m3, root, sp, argvPtr, argvPtr, WordBytes(ptrs + [0]));
  }

  /** What setup_user_stack wrote, copy_argv reads back exactly if there are at most 15 arguments, none
    * longer than 255 bytes and none with a zero byte in it. */
  lemma ArgvRoundTrip(read: Reader, m: Mem, root: nat, ptrs: seq<nat>, argv: seq<seq<byte>>, sp: nat, argvPtr: nat,
                      top: nat)
    requires StackBuilt(m, root, ptrs, argv, sp, argvPtr, top) && Sees(read, m, root)
    ensures ArgvFrom(read, argvPtr, MAX_ARGC) == Ok(argv) <==>
      |argv| <= 15 && forall i | 0 <= i < |argv| :: |argv[i]| <= 255 && 0 !in argv[i]
  {
    ReadableMeans(argv);
    hide Holds, Readable, ArgvFrom, Sees, ReadsAs;
    assert argv[0..] == argv && argvPtr + 8 * 0 == argvPtr;
    SeesHeld(read, m, root, argvPtr, WordBytes(ptrs + [0]));
    forall i | 0 <= i < |argv| ensures ReadsAs(read, ptrs[i], argv[i] + [0]) {
      SeesHeld(read, m, root, ptrs[i], argv[i] + [0]);
    }
    ArgvRead(read, argvPtr, ptrs, argv, 0, MAX_ARGC);
  }
}
