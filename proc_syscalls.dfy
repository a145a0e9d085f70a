/**
 * The sequential bookkeeping of the process system calls: packing of the
 * execv arguments into one buffer, the children array and exit status kept
 * by fork and _exit, and the option and result handling of waitpid.
 *
 * Locks appear only as "held" flags; the waits on condition variables and
 * the reclamation handoff are not modelled.  Calls into the rest of the
 * kernel (process creation, address-space copy, thread creation,
 * runprogram, _MKWAIT_EXIT, copyout) become parameters that give their
 * outcome.
 */
module ProcSyscalls {

  datatype Option<T> = None | Some(value: T)

  /** Error numbers, in the numbering of the kernel's errno header. */
  const ENOMEM: int := 3
  const EINVAL: int := 8

  const NUL: char := '\0'

  /** The characters of a C string before its terminator. */
  predicate IsCString(s: seq<char>) {
    forall i :: 0 <= i < |s| ==> s[i] != NUL
  }

  /** A user argument vector: some entry is NULL, and every entry before it is a C string. */
  predicate WellFormedArgv(args: seq<Option<seq<char>>>) {
    (exists k :: 0 <= k < |args| && args[k].None?)
    && forall i :: 0 <= i < |args| && args[i].Some? ==> IsCString(args[i].value)
  }

  /** The strings of a vector prefix that holds no NULL. */
  function Strings(args: seq<Option<seq<char>>>): (strs: seq<seq<char>>)
    requires forall i :: 0 <= i < |args| ==> args[i].Some?
    ensures |strs| == |args| && forall i :: 0 <= i < |args| ==> args[i] == Some(strs[i])
  {
    seq(|args|, i requires 0 <= i < |args| && args[i].Some? => args[i].value)
  }

  /** Bytes the strings take with one terminator each: the sum of strlen + 1. */
  function Footprint(strs: seq<seq<char>>): nat {
    if strs == [] then 0 else Footprint(strs[..|strs| - 1]) + |strs[|strs| - 1]| + 1
  }

  /** The strings laid out one after another, each followed by its terminator. */
  function Pack(strs: seq<seq<char>>): (buf: seq<char>)
    ensures |buf| == Footprint(strs)
  {
    if strs == [] then [] else Pack(strs[..|strs| - 1]) + strs[|strs| - 1] + [NUL]
  }

  /** Where the i-th string starts in the packed buffer. */
  function Offset(strs: seq<seq<char>>, i: nat): nat
    requires i <= |strs|
  {
    Footprint(strs[..i])
  }

  /** The C string that starts at off in buf: the characters up to the next terminator. */
  function ReadCString(buf: seq<char>, off: nat): seq<char>
    decreases |buf| - off
  {
    if off >= |buf| || buf[off] == NUL then [] else [buf[off]] + ReadCString(buf, off + 1)
  }

  lemma PackSnoc(strs: seq<seq<char>>, s: seq<char>)
    ensures Footprint(strs + [s]) == Footprint(strs) + |s| + 1
    ensures Pack(strs + [s]) == Pack(strs) + s + [NUL]
  {
  }

  lemma StringsSnoc(args: seq<Option<seq<char>>>, n: nat)
    requires n < |args| && forall i :: 0 <= i <= n ==> args[i].Some?
    ensures Strings(args[..n + 1]) == Strings(args[..n]) + [args[n].value]
  {
  }

  lemma {:induction false} FootprintAppend(s: seq<seq<char>>, t: seq<seq<char>>)
    ensures Footprint(s + t) == Footprint(s) + Footprint(t)
    ensures Pack(s + t) == Pack(s) + Pack(t)
  {
    if t != [] {
      var t', last := t[..|t| - 1], t[|t| - 1];
      assert (s + t)[..|s + t| - 1] == s + t';
      assert t == t' + [last];
      FootprintAppend(s, t');
    } else {
      assert s + t == s;
    }
  }

  /**
   * The i-th string sits at its offset in the packed buffer, terminator
   * included, and the offsets grow by strlen + 1 from one string to the next.
   */
  lemma PackedAt(strs: seq<seq<char>>, i: nat)
    requires i < |strs|
    ensures Offset(strs, i + 1) == Offset(strs, i) + |strs[i]| + 1
    ensures Offset(strs, i) + |strs[i]| < |Pack(strs)|
    ensures Pack(strs)[Offset(strs, i)..Offset(strs, i) + |strs[i]| + 1] == strs[i] + [NUL]
  {
    var pre, rest := strs[..i], strs[i + 1..];
    assert strs[..i + 1] == pre + [strs[i]];
    assert strs == (pre + [strs[i]]) + rest;
    FootprintAppend(pre, [strs[i]]);
    FootprintAppend(pre + [strs[i]], rest);
    assert [strs[i]][..0] == [];
  }

  /** PackedAt, character by character, for a buffer and offsets already computed. */
  lemma PackedChars(strs: seq<seq<char>>, i: nat, buf: seq<char>, off: nat, next: nat)
    requires i < |strs| && buf == Pack(strs) && off == Offset(strs, i) && next == Offset(strs, i + 1)
    ensures next == off + |strs[i]| + 1 <= |buf|
    ensures forall j :: off <= j < off + |strs[i]| ==> buf[j] == strs[i][j - off]
    ensures buf[off + |strs[i]|] == NUL
  {
    PackedAt(strs, i);
    assert buf[off..off + |strs[i]| + 1] == strs[i] + [NUL];
    forall j | off <= j < off + |strs[i]| ensures buf[j] == strs[i][j - off] {
      assert buf[j] == buf[off..off + |strs[i]| + 1][j - off];
    }
    assert buf[off + |strs[i]|] == buf[off..off + |strs[i]| + 1][|strs[i]|];
  }

  lemma {:induction false} ReadCStringStops(buf: seq<char>, off: nat, s: seq<char>)
    requires IsCString(s) && off + |s| < |buf| && buf[off + |s|] == NUL
    requires forall j :: off <= j < off + |s| ==> buf[j] == s[j - off]
    ensures ReadCString(buf, off) == s
    decreases |s|
  {
    if s != [] {
      ReadCStringStops(buf, off + 1, s[1..]);
      assert s == [s[0]] + s[1..];
    }
  }

  /** ReadCStringStops at the offset of argument i, for a buffer and offset already computed. */
  lemma UnpackAt(strs: seq<seq<char>>, i: nat, buf: seq<char>, off: nat)
    requires i < |strs| && IsCString(strs[i]) && buf == Pack(strs) && off == Offset(strs, i)
    ensures ReadCString(buf, off) == strs[i]
  {
    PackedChars(strs, i, buf, off, Offset(strs, i + 1));
    ReadCStringStops(buf, off, strs[i]);
  }

  /**
   * Reading a C string at the recorded offset of argument i gives back
   * argument i: every pointer the packing hands to runprogram is valid.
   */
  lemma UnpackArg(strs: seq<seq<char>>, i: nat)
    requires i < |strs| && forall j :: 0 <= j < |strs| ==> IsCString(strs[j])
    ensures ReadCString(Pack(strs), Offset(strs, i)) == strs[i]
  {
    UnpackAt(strs, i, Pack(strs), Offset(strs, i));
  }

  /**
   * copyinstr, as a copy that always succeeds: the string and its terminator
   * land at dst[at..] and the count of bytes copied, terminator included, is
   * reported.
   */
  method CopyInStr(src: seq<char>, dst: array<char>, at: nat, len: nat) returns (err: int, got: nat)
    requires IsCString(src) && |src| < len && at + |src| + 1 <= dst.Length
    modifies dst
    ensures err == 0 && got == |src| + 1
    ensures forall j :: at <= j < at + |src| ==> dst[j] == src[j - at]
    ensures dst[at + |src|] == NUL
    ensures forall j :: 0 <= j < dst.Length && !(at <= j <= at + |src|) ==> dst[j] == old(dst[j])
  {
    forall i | 0 <= i < |src| {
      dst[at + i] := src[i];
    }
    dst[at + |src|] := NUL;
    err, got := 0, |src| + 1;
  }

  /**
   * The first loop of execv: the number of entries before the NULL one, and
   * the bytes their copies need, terminators included.
   */
  method CountArgs(args: seq<Option<seq<char>>>) returns (argNum: nat, finalLen: nat)
    requires WellFormedArgv(args)
    ensures argNum < |args| && args[argNum].None?
    ensures forall i :: 0 <= i < argNum ==> args[i].Some?
    ensures finalLen == Footprint(Strings(args[..argNum]))
  {
    ghost var k :| 0 <= k < |args| && args[k].None?;
    argNum := 0;
    finalLen := 0;
    while args[argNum].Some?
      invariant argNum <= k
      invariant forall i :: 0 <= i < argNum ==> args[i].Some?
      invariant finalLen == Footprint(Strings(args[..argNum]))
      decreases k - argNum
    {
      StringsSnoc(args, argNum);
      PackSnoc(Strings(args[..argNum]), args[argNum].value);
      finalLen := finalLen + |args[argNum].value| + 1;
      argNum := argNum + 1;
    }
  }

  /**
   * The second loop of execv: each argument copied with its terminator into
   * one buffer of finalLen bytes, and its starting offset recorded.
   */
  method CopyArgs(strs: seq<seq<char>>, finalLen: nat) returns (copiedArgs: array<char>, newArgs: array<nat>)
    requires forall i :: 0 <= i < |strs| ==> IsCString(strs[i])
    requires finalLen == Footprint(strs)
    ensures copiedArgs.Length == finalLen && copiedArgs[..] == Pack(strs)
    ensures newArgs.Length == |strs| && forall i :: 0 <= i < |strs| ==> newArgs[i] == Offset(strs, i)
  {
    copiedArgs := new char[finalLen];
    newArgs := new nat[|strs|];
    ghost var packed := Pack(strs);
    var copied := 0;
    var check := 0;
    while check < |strs|
      modifies copiedArgs, newArgs
      invariant check <= |strs|
      invariant copied == Offset(strs, check) <= finalLen
      invariant forall j :: 0 <= j < copied ==> copiedArgs[j] == packed[j]
      invariant forall i :: 0 <= i < check ==> newArgs[i] == Offset(strs, i)
    {
      PackedChars(strs, check, packed, copied, Offset(strs, check + 1));
      var len := |strs[check]| + 1;
      var ifCopied, temp := CopyInStr(strs[check], copiedArgs, copied, len);
      newArgs[check] := copied;
      copied := copied + temp;
      check := check + 1;
    }
    assert strs[..check] == strs;
    assert copiedArgs[..] == packed;
  }

  /**
   * execv: counts the arguments before the NULL entry and sums their
   * strlen + 1, copies the program path and every argument into kernel
   * buffers, records each argument's offset, and hands the copies to
   * runprogram.  Returns 1 always, with runprogram's result in retval; the
   * results of the copies are never looked at.  The buffers are returned
   * too, as what runprogram receives.
   */
  method Execv(program: seq<char>, args: seq<Option<seq<char>>>,
               runprogram: (seq<char>, seq<char>, seq<nat>, nat) -> int)
    returns (ret: int, retval: int, copiedProgram: array<char>, copiedArgs: array<char>,
             newArgs: array<nat>, argNum: nat)
    requires IsCString(program) && WellFormedArgv(args)
    ensures argNum < |args| && args[argNum].None?
    ensures forall i :: 0 <= i < argNum ==> args[i].Some?
    ensures copiedProgram[..] == program + [NUL]
    ensures copiedArgs.Length == Footprint(Strings(args[..argNum]))
    ensures copiedArgs[..] == Pack(Strings(args[..argNum]))
    ensures newArgs.Length == argNum
    ensures forall i :: 0 <= i < argNum ==> newArgs[i] == Offset(Strings(args[..argNum]), i)
    ensures ret == 1 && retval == runprogram(copiedProgram[..], copiedArgs[..], newArgs[..], argNum)
  {
    var finalLen;
    argNum, finalLen := CountArgs(args);
    var len := |program| + 1;
    copiedProgram := new char[len];
    var ifCopied, _ := CopyInStr(program, copiedProgram, 0, len);
    assert copiedProgram[..] == program + [NUL];
    copiedArgs, newArgs := CopyArgs(Strings(args[..argNum]), finalLen);
    var result := runprogram(copiedProgram[..], copiedArgs[..], newArgs[..], argNum);
    retval := result;
    ret := 1;
  }

  /** Reversed(s) lists s from its last element to its first. */
  function Reversed<T>(s: seq<T>): (r: seq<T>)
    ensures |r| == |s| && forall i :: 0 <= i < |s| ==> r[i] == s[|s| - 1 - i]
    ensures multiset(r) == multiset(s)
  {
    if s == [] then [] else
      assert s == [s[0]] + s[1..];
      Reversed(s[1..]) + [s[0]]
  }

  /** A process record: identity, children array, exit_lock, exit flag and status. */
  class Process {
    var pid: int
    var children: seq<Process>
    /** Whether this process's exit_lock is held (by its parent, from fork on). */
    var exitLockHeld: bool
    var ifExit: bool
    var exitNum: int

    /** No process is its own child, and no child appears twice. */
    ghost predicate Valid()
      reads this
    {
      this !in children
      && forall i, j :: 0 <= i < j < |children| ==> children[i] != children[j]
    }

    /** The parent holds the exit_lock of every child in its array. */
    ghost predicate ChildrenLocked()
      reads this, children
    {
      forall c :: c in children ==> c.exitLockHeld
    }

    /** A freshly created process record (proc_create_runprogram). */
    constructor (pid: int)
      ensures this.pid == pid && children == [] && !exitLockHeld && !ifExit
    {
      this.pid := pid;
      children := [];
      exitLockHeld := false;
      ifExit := false;
      exitNum := 0;
    }

    /**
     * fork.  The outcomes of process creation, address-space copy,
     * trapframe allocation, thread_fork and array_add are parameters; newPid
     * is the id the new record is created with.  A failed array_add is not
     * looked at: fork still succeeds and holds the child's exit_lock, but the
     * child is not in the children array.
     */
    method Fork(newPid: int, created: bool, addrspaceCopied: bool, trapframeAllocated: bool,
                threadForkResult: int, arrayAdded: bool)
      returns (err: int, retval: Option<int>, child: Process?)
      requires Valid()
      modifies this`children
      ensures Valid()
      ensures err == 0 <==> created && addrspaceCopied && trapframeAllocated && threadForkResult == 0
      ensures err != 0 ==> err == ENOMEM && retval == None && child == null && children == old(children)
      ensures err == 0 ==>
        && child != null && fresh(child) && retval == Some(newPid)
        && child.pid == newPid && child.children == [] && !child.ifExit && child.exitLockHeld
      ensures err == 0 && arrayAdded ==> children == old(children) + [child]
      ensures err == 0 && !arrayAdded ==> children == old(children)
      ensures old(ChildrenLocked()) ==> ChildrenLocked()
    {
      if !created {
        return ENOMEM, None, null;
      }
      var newproc := new Process(newPid);
      if !addrspaceCopied || !trapframeAllocated || threadForkResult != 0 {
        // proc_destroy(newproc): the record is dropped
        return ENOMEM, None, null;
      }
      retval := Some(newproc.pid);
      if arrayAdded {
        children := children + [newproc];
      }
      newproc.exitLockHeld := true;
      err, child := 0, newproc;
    }

    /**
     * The bookkeeping of _exit: drain the children array from its last
     * entry to its first, releasing each child's exit_lock, then publish
     * the exit flag and status.  released lists the children in the order
     * their locks were released.
     */
    method SysExit(exitcode: int, mkWaitExit: int -> int) returns (released: seq<Process>)
      requires Valid() && ChildrenLocked()
      modifies this`children, this`ifExit, this`exitNum, children`exitLockHeld
      ensures Valid() && children == []
      ensures ifExit && exitNum == mkWaitExit(exitcode)
      ensures released == Reversed(old(children))
      ensures forall c :: c in old(children) ==> !c.exitLockHeld
    {
      released := [];
      var a := |children|;
      while a > 0
        invariant 0 <= a <= |old(children)| && children == old(children)[..a]
        invariant released == Reversed(old(children)[a..])
        invariant forall c :: c in old(children)[a..] ==> !c.exitLockHeld
        invariant forall c :: c in old(children)[..a] ==> c.exitLockHeld
      {
        var temp := children[a - 1];
        temp.exitLockHeld := false;
        released := released + [temp];
        children := children[..a - 1] + children[a..];
        a := a - 1;
      }
      ifExit := true;
      exitNum := mkWaitExit(exitcode);
    }
  }

  /**
   * sys_waitpid, from the point where the target has exited (the wait loop
   * ends only then).  copyoutResult is what copyout returns; statusOut is
   * the status copyout is asked to write, None when it is not called.
   */
  method SysWaitpid(target: Process, pid: int, options: int, copyoutResult: int)
    returns (err: int, retval: Option<int>, statusOut: Option<int>)
    requires target.ifExit
    ensures options != 0 ==> err == EINVAL && retval == None && statusOut == None
    ensures options == 0 ==> statusOut == Some(target.exitNum)
    ensures options == 0 && copyoutResult != 0 ==> err == copyoutResult && retval == None
    ensures options == 0 && copyoutResult == 0 ==> err == 0 && retval == Some(pid)
  {
    var exitStatus := target.exitNum;
    if options != 0 {
      return EINVAL, None, None;
    }
    statusOut := Some(exitStatus);
    var result := copyoutResult;
    if result != 0 {
      return result, None, statusOut;
    }
    err, retval := 0, Some(pid);
  }

  /**
   * A parent forks a child, the child exits with exitcode, the parent waits
   * for it: waitpid reports the encoded exit code and the child's id.
   */
  method ForkExitWait(parent: Process, newPid: int, exitcode: int, mkWaitExit: int -> int)
    returns (status: Option<int>, waited: Option<int>)
    requires parent.Valid()
    modifies parent`children
    ensures status == Some(mkWaitExit(exitcode)) && waited == Some(newPid)
  {
    var err, retval, child := parent.Fork(newPid, true, true, true, 0, true);
    var _ := child.SysExit(exitcode, mkWaitExit);
    var werr;
    werr, waited, status := SysWaitpid(child, newPid, 0, 0);
  }

  /**
   * When array_add fails, fork still succeeds with the child's exit_lock
   * held, and the parent's _exit, which releases only the children in its
   * array, never releases that lock.
   */
  method ForkUnaddedThenExit(parent: Process, newPid: int, exitcode: int, mkWaitExit: int -> int)
    returns (err: int, child: Process?, released: seq<Process>)
    requires parent.Valid() && parent.ChildrenLocked()
    modifies parent`children, parent`ifExit, parent`exitNum, parent.children`exitLockHeld
    ensures err == 0 && child != null && child.exitLockHeld && child !in released
  {
    var retval;
    err, retval, child := parent.Fork(newPid, true, true, true, 0, false);
    released := parent.SysExit(exitcode, mkWaitExit);
  }
}
