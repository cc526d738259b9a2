/**
 The first stack page of a spawned program (TPJOS/lib/spawn.c:196-275), and how the program
 finds its arguments in it. The page is built at UTEMP and mapped just below USTACKTOP.

 Offsets are into the page. The strings are assumed to take less than 4 MB, so that no
 address wraps.
 */
module InitStack {
  import opened Options
  import opened FileLayout

  const USTACKTOP: nat := 0xEEBF_E000
  const PGSIZE: nat := 4096
  const BASE: nat := USTACKTOP - PGSIZE    // where the child has the page

  type Argument = s: seq<Byte> | 0 !in s   // a C string without its terminator

  /** UTEMP2USTACK of the address at an offset. */
  function ChildAddress(offset: nat): nat {
    BASE + offset
  }

  /** The strings with their terminators. */
  function StringSize(argv: seq<Argument>): nat {
    if argv == [] then 0 else StringSize(argv[..|argv| - 1]) + |argv[|argv| - 1]| + 1
  }

  lemma {:induction false} SizeUpTo(argv: seq<Argument>, i: nat)
    requires i < |argv|
    ensures StringSize(argv[..i + 1]) == StringSize(argv[..i]) + |argv[i]| + 1
    ensures StringSize(argv[..i + 1]) <= StringSize(argv)
    decreases |argv| - i
  {
    assert argv[..i + 1][..i] == argv[..i];
    if i + 1 < |argv| {
      SizeUpTo(argv, i + 1);
    } else {
      assert argv[..i + 1] == argv;
    }
  }

  // ------------------------------------------------------------------
  // What the child reads
  // ------------------------------------------------------------------

  /** The string at an offset, up to its terminator. */
  function CString(page: Block, at: nat): seq<Byte>
    decreases PGSIZE - at
  {
    if at >= PGSIZE || page[at] == 0 then [] else [page[at]] + CString(page, at + 1)
  }

  /** The word at a child address, if it lies in the page. */
  function WordOf(page: Block, address: nat): Option<nat> {
    if BASE <= address && address + 4 <= USTACKTOP && address % 4 == 0 then Some(WordAt(page, (address - BASE) / 4)) else None
  }

  /** The arguments from number `i` to `argc`, through the pointers at `argv`. */
  function ReadArgs(page: Block, argv: nat, i: nat, argc: nat): Option<seq<seq<Byte>>>
    requires i <= argc
    decreases argc - i
  {
    var pointer := WordOf(page, argv + 4 * i);
    if pointer.None? then None
    else if i == argc then (if pointer.value == 0 then Some([]) else None)
    else
      var rest := ReadArgs(page, argv, i + 1, argc);
      if rest.None? || pointer.value < BASE then None else Some([CString(page, pointer.value - BASE)] + rest.value)
  }

  /** What umain gets: argc and argv from the top of the stack, and what argv leads to. */
  function Decode(page: Block, esp: nat): Option<seq<seq<Byte>>> {
    var argc, argv := WordOf(page, esp), WordOf(page, esp + 4);
    if argc.None? || argv.None? then None else ReadArgs(page, argv.value, 0, argc.value)
  }

  // ------------------------------------------------------------------
  // Building the page
  // ------------------------------------------------------------------

  /** The string, with its terminator, is at the offset. */
  ghost predicate StringAt(page: Block, at: nat, s: Argument) {
    at + |s| < PGSIZE && page[at..at + |s|] == s && page[at + |s|] == 0
  }

  lemma {:induction false} StringRead(page: Block, at: nat, s: Argument)
    requires StringAt(page, at, s)
    ensures CString(page, at) == s
    decreases |s|
  {
    if s != [] {
      assert page[at] == page[at..at + |s|][0] == s[0];
      assert page[at + 1..at + 1 + |s[1..]|] == page[at..at + |s|][1..];
      assert 0 !in s[1..];
      StringRead(page, at + 1, s[1..]);
    }
  }

  /** strcpy. */
  method StrCpy(page: array<Byte>, at: nat, s: Argument)
    requires page.Length == PGSIZE && at + |s| < PGSIZE
    modifies page
    ensures StringAt(page[..], at, s)
    ensures forall k :: 0 <= k < PGSIZE && !(at <= k <= at + |s|) ==> page[k] == old(page[k])
  {
    var i := 0;
    while i < |s|
      invariant i <= |s| && page[at..at + i] == s[..i]
      invariant forall k :: 0 <= k < PGSIZE && !(at <= k < at + i) ==> page[k] == old(page[k])
    {
      page[at + i] := s[i];
      assert page[at..at + i + 1] == page[at..at + i] + [s[i]];
      i := i + 1;
    }
    page[at + |s|] := 0;
    assert page[..][at..at + |s|] == page[at..at + |s|] == s;
  }

  /** A store of the word number `k` of the page. */
  method StoreWord(page: array<Byte>, k: nat, v: nat)
    requires page.Length == PGSIZE && k < NINDIRECT && v < WORD
    modifies page
    ensures page[..] == PutWord(old(page[..]), k, v)
    ensures forall i :: 0 <= i < PGSIZE && !(4 * k <= i < 4 * k + 4) ==> page[i] == old(page[i])
  {
    page[4 * k], page[4 * k + 1] := v % 0x100, v / 0x100 % 0x100;
    page[4 * k + 2], page[4 * k + 3] := v / 0x1_0000 % 0x100, v / 0x100_0000;
  }

  /** Where string `j` begins. */
  function Place(argv: seq<Argument>, strings: nat, j: nat): nat
    requires j <= |argv|
  {
    strings + StringSize(argv[..j])
  }

  /** Word `first` + j points to string `j`, and the string is there. */
  ghost predicate Entry(page: Block, argv: seq<Argument>, first: nat, strings: nat, j: nat)
    requires j < |argv| && first + j < NINDIRECT
  {
    && WordAt(page, first + j) == ChildAddress(Place(argv, strings, j))
    && StringAt(page, Place(argv, strings, j), argv[j])
  }

  ghost predicate Stored(page: Block, argv: seq<Argument>, first: nat, strings: nat, i: nat) {
    i <= |argv| && first + i <= NINDIRECT && forall j :: 0 <= j < i ==> Entry(page, argv, first, strings, j)
  }

  /** Where the words begin that point to the strings, before it is known that they fit. */
  function ArgvStore(argv: seq<Argument>): int {
    (PGSIZE as int - StringSize(argv)) / 4 * 4 - 4 * (|argv| + 1)
  }

  /** TooLong is the -E_NO_MEM of init_stack itself; NoPage and NotMapped are failures of sys_page_alloc
      and of sys_page_map into the child. */
  datatype Result = Esp(esp: nat) | TooLong | NoPage | NotMapped

  /** init_stack. The page that sys_page_alloc gives, if it does, is `page`; the child has it in the end
      exactly if the result is Esp. */
  method InitStack(argv: seq<Argument>, page: array<Byte>, gotPage: bool, mapped: bool) returns (r: Result)
    requires page.Length == PGSIZE
    modifies page
    ensures r.TooLong? <==> ArgvStore(argv) - 8 < 0
    ensures r.NoPage? <==> !r.TooLong? && !gotPage
    ensures r.NotMapped? <==> !r.TooLong? && gotPage && !mapped
    ensures r.TooLong? || r.NoPage? ==> page[..] == old(page[..])
    ensures r.Esp? ==> r.esp % 4 == 0 && BASE <= r.esp < USTACKTOP
    ensures r.Esp? ==> Decode(page[..], r.esp) == Some(argv)
  {
    hide Place, Entry, StringAt, Decode, WordAt, PutWord;
    var stringSize, argc := 0, 0;
    while argc < |argv|
      invariant argc <= |argv| && stringSize == StringSize(argv[..argc])
      invariant page[..] == old(page[..])
    {
      SizeUpTo(argv, argc);
      stringSize := stringSize + |argv[argc]| + 1;
      argc := argc + 1;
    }
    assert argv[..argc] == argv;
    var store := (PGSIZE as int - stringSize) / 4 * 4 - 4 * (argc + 1);
    if store - 8 < 0 {
      return TooLong;
    }
    if !gotPage {
      return NoPage;
    }
    var strings: nat := PGSIZE - stringSize;
    var first: nat := store / 4;
    var stringStore, i := strings, 0;
    EndPlace(argv, strings);
    PlaceZero(argv, strings);
    while i < argc
      invariant i <= argc && stringStore == Place(argv, strings, i)
      invariant Stored(page[..], argv, first, strings, i)
    {
      ghost var before := page[..];
      PlaceNext(argv, strings, i);
      StoreWord(page, first + i, ChildAddress(stringStore));
      ghost var middle := page[..];
      StrCpy(page, stringStore, argv[i]);
      OneMore(before, middle, page[..], argv, first, strings, i);
      stringStore := stringStore + |argv[i]| + 1;
      i := i + 1;
    }
    assert stringStore == PGSIZE;
    ghost var filled := page[..];
    StoreWord(page, first + argc, 0);
    StoreWord(page, first - 1, ChildAddress(store));
    StoreWord(page, first - 2, argc);
    Finish(filled, argv, first, strings);
    if !mapped {
      return NotMapped;
    }
    return Esp(ChildAddress(store - 8));
  }

  lemma PlaceZero(argv: seq<Argument>, strings: nat)
    ensures Place(argv, strings, 0) == strings
  {
  }

  lemma PlaceNext(argv: seq<Argument>, strings: nat, i: nat)
    requires i < |argv|
    ensures Place(argv, strings, i + 1) == Place(argv, strings, i) + |argv[i]| + 1 <= strings + StringSize(argv)
    ensures Place(argv, strings, 0) == strings <= Place(argv, strings, i)
  {
    SizeUpTo(argv, i);
  }

  /** Strings do not overlap. */
  lemma {:induction false} Earlier(argv: seq<Argument>, strings: nat, j: nat, i: nat)
    requires j < i <= |argv|
    ensures strings <= Place(argv, strings, j) && Place(argv, strings, j) + |argv[j]| + 1 <= Place(argv, strings, i)
    decreases i - j
  {
    hide Place;
    PlaceNext(argv, strings, i - 1);
    if j + 1 < i {
      Earlier(argv, strings, j, i - 1);
    } else {
      PlaceNext(argv, strings, j);
    }
  }

  lemma SameWord(b: Block, b': Block, k: nat)
    requires k < NINDIRECT && forall i :: 4 * k <= i < 4 * k + 4 ==> b[i] == b'[i]
    ensures WordAt(b, k) == WordAt(b', k)
  {
  }

  lemma SameString(b: Block, b': Block, at: nat, s: Argument)
    requires StringAt(b, at, s) && forall i :: at <= i <= at + |s| ==> b[i] == b'[i]
    ensures StringAt(b', at, s)
  {
    assert b'[at..at + |s|] == b[at..at + |s|];
  }

  /** A store of word `k` changes no byte elsewhere. */
  lemma PutElsewhere(b: Block, k: nat, v: nat, i: nat)
    requires k < NINDIRECT && v < WORD && i < BLKSIZE && !(4 * k <= i < 4 * k + 4)
    ensures PutWord(b, k, v)[i] == b[i]
  {
  }

  /** Storing the next pointer and string leaves the earlier ones alone. */
  lemma EntryStays(before: Block, after: Block, argv: seq<Argument>, first: nat, strings: nat, i: nat, j: nat)
    requires j < i < |argv| && first + i < NINDIRECT && 4 * (first + |argv| + 1) <= strings && strings + StringSize(argv) == PGSIZE
    requires Entry(before, argv, first, strings, j)
    requires forall k | 0 <= k < PGSIZE && !(4 * (first + i) <= k < 4 * (first + i) + 4) &&
                        !(Place(argv, strings, i) <= k <= Place(argv, strings, i) + |argv[i]|) :: after[k] == before[k]
    ensures Entry(after, argv, first, strings, j)
  {
    hide Place, StringAt, WordAt, StringSize;
    Earlier(argv, strings, j, i);
    PlaceNext(argv, strings, i);
    SameWord(before, after, first + j);
    SameString(before, after, Place(argv, strings, j), argv[j]);
  }

  lemma OneMore(before: Block, middle: Block, after: Block, argv: seq<Argument>, first: nat, strings: nat, i: nat)
    requires Stored(before, argv, first, strings, i) && i < |argv| && 4 * (first + |argv| + 1) <= strings
    requires strings + StringSize(argv) == PGSIZE && first + i < NINDIRECT
    requires var at := Place(argv, strings, i);
      && ChildAddress(at) < WORD && middle == PutWord(before, first + i, ChildAddress(at))
      && StringAt(after, at, argv[i])
      && forall k :: 0 <= k < PGSIZE && !(at <= k <= at + |argv[i]|) ==> after[k] == middle[k]
    ensures Stored(after, argv, first, strings, i + 1)
  {
    hide Place, StringAt, WordAt, StringSize, PutWord;
    var at := Place(argv, strings, i);
    PlaceNext(argv, strings, i);
    WordPut(before, first + i, ChildAddress(at), first + i);
    SameWord(middle, after, first + i);
    forall k | 0 <= k < PGSIZE && !(4 * (first + i) <= k < 4 * (first + i) + 4) && !(at <= k <= at + |argv[i]|)
      ensures after[k] == before[k]
    {
      PutElsewhere(before, first + i, ChildAddress(at), k);
    }
    forall j | 0 <= j < i
      ensures Entry(after, argv, first, strings, j)
    {
      EntryStays(before, after, argv, first, strings, i, j);
    }
  }

  /** The page when all is written. */
  function Finished(filled: Block, first: nat, argc: nat): Block
    requires 2 <= first && first + argc < NINDIRECT && argc < WORD
  {
    PutWord(PutWord(PutWord(filled, first + argc, 0), first - 1, ChildAddress(4 * first)), first - 2, argc)
  }

  lemma FinishedWord(filled: Block, first: nat, argc: nat, k: nat)
    requires 2 <= first && first + argc < NINDIRECT && k < NINDIRECT
    ensures WordAt(Finished(filled, first, argc), k) ==
      if k == first - 2 then argc else if k == first - 1 then ChildAddress(4 * first)
      else if k == first + argc then 0 else WordAt(filled, k)
  {
    hide PutWord, WordAt;
    var ended := PutWord(filled, first + argc, 0);
    var pointed := PutWord(ended, first - 1, ChildAddress(4 * first));
    WordPut(filled, first + argc, 0, k);
    WordPut(ended, first - 1, ChildAddress(4 * first), k);
    WordPut(pointed, first - 2, argc, k);
  }

  lemma FinishedByte(filled: Block, first: nat, argc: nat, i: nat)
    requires 2 <= first && first + argc < NINDIRECT && 4 * (first + argc + 1) <= i < PGSIZE
    ensures Finished(filled, first, argc)[i] == filled[i]
  {
    hide PutWord;
    var ended := PutWord(filled, first + argc, 0);
    var pointed := PutWord(ended, first - 1, ChildAddress(4 * first));
    PutElsewhere(filled, first + argc, 0, i);
    PutElsewhere(ended, first - 1, ChildAddress(4 * first), i);
    PutElsewhere(pointed, first - 2, argc, i);
  }

  lemma FinishedEntry(filled: Block, argv: seq<Argument>, first: nat, strings: nat, j: nat)
    requires j < |argv| && 2 <= first && first + |argv| < NINDIRECT && 4 * (first + |argv| + 1) <= strings
    requires strings + StringSize(argv) == PGSIZE && Entry(filled, argv, first, strings, j)
    ensures Entry(Finished(filled, first, |argv|), argv, first, strings, j)
  {
    hide Place, StringAt, WordAt, StringSize, Finished;
    var argc, page := |argv|, Finished(filled, first, |argv|);
    FinishedWord(filled, first, argc, first + j);
    Earlier(argv, strings, j, argc);
    EndPlace(argv, strings);
    forall i | Place(argv, strings, j) <= i <= Place(argv, strings, j) + |argv[j]|
      ensures page[i] == filled[i]
    {
      FinishedByte(filled, first, argc, i);
    }
    SameString(filled, page, Place(argv, strings, j), argv[j]);
  }

  /** What the child makes of the page. */
  lemma Finish(filled: Block, argv: seq<Argument>, first: nat, strings: nat)
    requires Stored(filled, argv, first, strings, |argv|) && 2 <= first && 4 * (first + |argv| + 1) <= strings
    requires strings + StringSize(argv) == PGSIZE
    ensures first + |argv| < NINDIRECT
    ensures Decode(Finished(filled, first, |argv|), ChildAddress(4 * first - 8)) == Some(argv)
  {
    hide Place, Entry, StringAt, WordAt, StringSize, Finished, ReadArgs;
    var argc, page := |argv|, Finished(filled, first, |argv|);
    FinishedWord(filled, first, argc, first - 2);
    FinishedWord(filled, first, argc, first - 1);
    FinishedWord(filled, first, argc, first + argc);
    forall j | 0 <= j < argc
      ensures Entry(page, argv, first, strings, j)
    {
      FinishedEntry(filled, argv, first, strings, j);
    }
    ArgsRead(page, argv, first, strings, 0);
    assert argv[0..] == argv;
    assert (ChildAddress(4 * first - 8) - BASE) / 4 == first - 2 && (ChildAddress(4 * first - 8) + 4 - BASE) / 4 == first - 1;
  }

  lemma EndPlace(argv: seq<Argument>, strings: nat)
    ensures Place(argv, strings, |argv|) == strings + StringSize(argv)
  {
    assert argv[..|argv|] == argv;
  }

  lemma {:induction false} ArgsRead(page: Block, argv: seq<Argument>, first: nat, strings: nat, i: nat)
    requires Stored(page, argv, first, strings, |argv|) && i <= |argv| && first + |argv| < NINDIRECT && WordAt(page, first + |argv|) == 0
    ensures ReadArgs(page, ChildAddress(4 * first), i, |argv|) == Some(argv[i..])
    decreases |argv| - i
  {
    hide Place, WordAt, StringSize, StringAt;
    var address := ChildAddress(4 * first) + 4 * i;
    assert address == BASE + 4 * (first + i) && WordOf(page, address) == Some(WordAt(page, first + i));
    if i < |argv| {
      ArgsRead(page, argv, first, strings, i + 1);
      assert Entry(page, argv, first, strings, i);
      StringRead(page, Place(argv, strings, i), argv[i]);
      assert argv[i..] == [argv[i]] + argv[i + 1..];
    } else {
      assert argv[i..] == [];
    }
  }
}
