/**
 Open descriptors with the bytes behind them, and the two byte loops of the
 immutable install content: copying a descriptor into a fresh one, and comparing
 an artifact with its sealed copy.
 */
module InstallContent {
  import opened Wrappers

  type Byte = b: nat | b < 256
  type Bytes = seq<Byte>

  const BUFFER_SIZE: nat := 65536
  const MAXIMUM_ARTIFACT_BYTES: nat := 4 * 1024 * 1024 * 1024
  const MAXIMUM_TRANSACTION_BYTES: nat := 8 * 1024 * 1024 * 1024
  const MAXIMUM_SIGNATURE_BYTES: nat := 16 * 1024 * 1024

  datatype File = File(content: Bytes, isRegular: bool, isSealed: bool)

  /** How the next interruptible call ends: a signal arrives, the call fails, or
      it transfers at most `count` bytes. */
  datatype Outcome = Interrupted | Failing | Upto(count: nat)

  datatype Transfer = TryAgain | Error | Count(count: nat)

  function Min(a: nat, b: nat): nat {
    if a < b then a else b
  }

  /** Signals and short counts only. */
  ghost predicate Benign(script: seq<Outcome>) {
    forall o | o in script :: !o.Failing? && (o.Upto? ==> o.count > 0)
  }

  /** Signals, and counts no buffer is too large for: no call comes back short. */
  ghost predicate NeverShort(script: seq<Outcome>) {
    forall o | o in script :: !o.Failing? && (o.Upto? ==> o.count >= BUFFER_SIZE)
  }

  // ----- what an operation leaves of the script -----

  /** One call that transfers up to `limit` bytes takes the next outcome. */
  ghost predicate Transfers(before: seq<Outcome>, after: seq<Outcome>, limit: nat, r: Transfer) {
    && after == (if before == [] then [] else before[1..])
    && r == if before == [] then Count(limit) else
      match before[0] {
        case Interrupted => TryAgain
        case Failing => Error
        case Upto(n) => Count(Min(n, limit))
      }
  }

  /** A call that just fails or succeeds. */
  ghost function CallPass(script: seq<Outcome>): Option<seq<Outcome>> {
    if script == [] then Some([])
    else if script[0].Failing? then None
    else Some(script[1..])
  }

  /** A write of `left` bytes: signals are retried and short counts continued. */
  ghost function WritePass(script: seq<Outcome>, left: nat): (r: Option<seq<Outcome>>)
    ensures r.Some? ==> |r.value| <= |script|
  {
    if left == 0 then Some(script)
    else if script == [] then Some([])
    else
      match script[0]
      case Interrupted => WritePass(script[1..], left)
      case Failing => None
      case Upto(n) => if n == 0 then None else WritePass(script[1..], left - Min(n, left))
  }

  /** A copy of `left` bytes: each read is written out before the next one. */
  ghost function CopyPass(script: seq<Outcome>, left: nat): Option<seq<Outcome>>
    decreases |script|
  {
    if left == 0 then Some(script)
    else if script == [] then Some([])
    else
      match script[0]
      case Interrupted => CopyPass(script[1..], left)
      case Failing => None
      case Upto(n) =>
        if n == 0 then None
        else
          var count := Min(n, Min(BUFFER_SIZE, left));
          var written := WritePass(script[1..], count);
          if written.None? then None else CopyPass(written.value, left - count)
  }

  /**
   The descriptor table.  `script` holds the outcomes of the coming calls; once
   it is used up, calls transfer all they can.  `verdicts` holds the answers of
   the coming validity checks of the artifacts' names and identities.
   */
  class Kernel {
    var files: map<nat, File>
    var script: seq<Outcome>
    var verdicts: seq<bool>

    constructor (files: map<nat, File>, script: seq<Outcome>)
      ensures this.files == files && this.script == script
    {
      this.files, this.script := files, script;
    }

    method NextTransfer(limit: nat) returns (r: Transfer)
      modifies `script
      ensures Transfers(old(script), script, limit, r)
    {
      if script == [] {
        return Count(limit);
      }
      var next := script[0];
      script := script[1..];
      match next {
        case Interrupted => r := TryAgain;
        case Failing => r := Error;
        case Upto(n) => r := Count(Min(n, limit));
      }
    }

    /** `pread`: how many of the `size` bytes at `offset` could be read. */
    method Read(fd: nat, size: nat, offset: nat) returns (r: Transfer)
      requires fd in files && offset + size <= |files[fd].content|
      modifies `script
      ensures Transfers(old(script), script, size, r)
    {
      r := NextTransfer(size);
    }

    /** `write`: appends as many of the bytes as the call transfers. */
    method Write(fd: nat, data: Bytes) returns (r: Transfer)
      requires fd in files && !files[fd].isSealed
      modifies `script, `files
      ensures Transfers(old(script), script, |data|, r)
      ensures r.Count? ==> r.count <= |data|
      ensures files == if r.Count?
        then old(files)[fd := old(files)[fd].(content := old(files)[fd].content + data[..r.count])] else old(files)
    {
      r := NextTransfer(|data|);
      if r.Count? {
        files := files[fd := files[fd].(content := files[fd].content + data[..r.count])];
      }
    }

    /** A new empty, writable, unsealed descriptor, or none. */
    method CreateMemory() returns (fd: Option<nat>)
      modifies `files, `script
      ensures fd.Some? ==> fd.value !in old(files) && files == old(files)[fd.value := File([], true, false)]
      ensures fd.None? ==> files == old(files)
      ensures fd.Some? <==> CallPass(old(script)).Some?
      ensures fd.Some? ==> script == CallPass(old(script)).value
    {
      var r := NextTransfer(1);
      if r.Error? {
        return None;
      }
      var unused := Unused();
      files := files[unused := File([], true, false)];
      fd := Some(unused);
    }

    /** Opens a file of the workspace, or fails. */
    method OpenFile(file: File) returns (fd: Option<nat>)
      modifies `files, `script
      ensures fd.Some? ==> fd.value !in old(files) && files == old(files)[fd.value := file]
      ensures fd.None? ==> files == old(files)
      ensures fd.Some? <==> CallPass(old(script)).Some?
      ensures fd.Some? ==> script == CallPass(old(script)).value
    {
      var r := NextTransfer(1);
      if r.Error? {
        return None;
      }
      var unused := Unused();
      files := files[unused := file];
      fd := Some(unused);
    }

    /** The lowest descriptor number not in use. */
    method Unused() returns (fd: nat)
      ensures fd !in files && forall k: nat | k < fd :: k in files
    {
      fd := 0;
      ghost var left := files.Keys;
      while fd in files
        invariant forall k: nat | k < fd :: k in files
        invariant left == set k | k in files && k >= fd
        decreases left
      {
        left := left - {fd};
        fd := fd + 1;
      }
    }

    method Seal(fd: nat) returns (ok: bool)
      requires fd in files
      modifies `files, `script
      ensures files == if ok then old(files)[fd := old(files)[fd].(isSealed := true)] else old(files)
      ensures ok <==> CallPass(old(script)).Some?
      ensures ok ==> script == CallPass(old(script)).value
    {
      var r := NextTransfer(1);
      ok := !r.Error?;
      if ok {
        files := files[fd := files[fd].(isSealed := true)];
      }
    }

    /** Closing needs an open descriptor: nothing can be closed twice. */
    method Close(fd: nat)
      requires fd in files
      modifies `files
      ensures files == old(files) - {fd}
    {
      files := files - {fd};
    }

    method CloseIfOpen(fd: Option<nat>)
      requires fd.Some? ==> fd.value in files
      modifies `files
      ensures files == if fd.Some? then old(files) - {fd.value} else old(files)
    {
      if fd.Some? {
        Close(fd.value);
      }
    }

    method NextVerdict() returns (valid: bool)
      modifies `verdicts
      ensures valid == (old(verdicts) == [] || old(verdicts)[0])
      ensures verdicts == if old(verdicts) == [] then [] else old(verdicts)[1..]
    {
      valid := verdicts == [] || verdicts[0];
      verdicts := if verdicts == [] then [] else verdicts[1..];
    }
  }

  /** Only `destination` changed, and it only grew. */
  ghost predicate OnlyGrew(before: map<nat, File>, after: map<nat, File>, destination: nat) {
    && after.Keys == before.Keys
    && (forall fd | fd in before && fd != destination :: after[fd] == before[fd])
    && (destination in before ==>
          && after[destination] == before[destination].(content := after[destination].content)
          && before[destination].content <= after[destination].content)
  }

  lemma GrewOn(start: map<nat, File>, before: map<nat, File>, after: map<nat, File>, destination: nat)
    requires OnlyGrew(start, before, destination) && OnlyGrew(before, after, destination)
    ensures OnlyGrew(start, after, destination)
  {
  }

  /** The first `offset` bytes of `content` have been appended to `destination`. */
  ghost predicate Copied(
    start: map<nat, File>, files: map<nat, File>, destination: nat, content: Bytes, offset: nat)
  {
    && OnlyGrew(start, files, destination) && destination in start && offset <= |content|
    && files[destination].content == start[destination].content + content[..offset]
  }

  lemma CopiedMore(
    start: map<nat, File>, before: map<nat, File>, after: map<nat, File>, destination: nat,
    content: Bytes, offset: nat, count: nat)
    requires offset + count <= |content| && Copied(start, before, destination, content, offset)
    requires OnlyGrew(before, after, destination)
    requires after[destination].content == before[destination].content + content[offset..offset + count]
    ensures Copied(start, after, destination, content, offset + count)
  {
    GrewOn(start, before, after, destination);
    assert content[..offset] + content[offset..offset + count] == content[..offset + count];
  }

  lemma NothingCopied(files: map<nat, File>, destination: nat, content: Bytes)
    requires destination in files
    ensures Copied(files, files, destination, content, 0)
  {
  }

  lemma AllCopied(start: map<nat, File>, files: map<nat, File>, destination: nat, content: Bytes)
    requires Copied(start, files, destination, content, |content|)
    ensures files[destination].content == start[destination].content + content
  {
    assert content[..|content|] == content;
  }

  /** Writing `left` bytes from here on leaves what writing `size` left from the start. */
  ghost predicate StillWriting(start: seq<Outcome>, size: nat, script: seq<Outcome>, left: nat) {
    WritePass(script, left) == WritePass(start, size)
  }

  lemma WriteInWrite(
    start: seq<Outcome>, size: nat, before: seq<Outcome>, after: seq<Outcome>, left: nat, r: Transfer)
    requires 0 < left && Transfers(before, after, left, r) && StillWriting(start, size, before, left)
    ensures r.TryAgain? ==> StillWriting(start, size, after, left)
    ensures r.Error? || r == Count(0) ==> WritePass(start, size).None?
    ensures r.Count? && r.count > 0 ==> r.count <= left && StillWriting(start, size, after, left - r.count)
  {
  }

  method WriteAll(kernel: Kernel, destination: nat, data: Bytes) returns (ok: bool)
    requires destination in kernel.files && !kernel.files[destination].isSealed
    modifies kernel`files, kernel`script
    ensures OnlyGrew(old(kernel.files), kernel.files, destination)
    ensures ok ==> kernel.files[destination].content == old(kernel.files[destination].content) + data
    ensures ok <==> WritePass(old(kernel.script), |data|).Some?
    ensures ok ==> kernel.script == WritePass(old(kernel.script), |data|).value
  {
    var written := 0;
    ghost var start := kernel.files;
    NothingCopied(start, destination, data);
    while written < |data|
      invariant 0 <= written <= |data| && Copied(start, kernel.files, destination, data, written)
      invariant StillWriting(old(kernel.script), |data|, kernel.script, |data| - written)
      decreases |kernel.script|, |data| - written
    {
      ghost var files, script := kernel.files, kernel.script;
      var amount := kernel.Write(destination, data[written..]);
      WriteInWrite(old(kernel.script), |data|, script, kernel.script, |data| - written, amount);
      if amount.TryAgain? {
        continue;
      }
      if amount.Error? || amount.count == 0 {
        GrewOn(start, files, kernel.files, destination);
        return false;
      }
      assert data[written..][..amount.count] == data[written..written + amount.count];
      CopiedMore(start, files, kernel.files, destination, data, written, amount.count);
      written := written + amount.count;
    }
    AllCopied(start, kernel.files, destination, data);
    ok := true;
  }

  /** Writes out one chunk of `content`. */
  method WriteChunk(
    kernel: Kernel, destination: nat, content: Bytes, offset: nat, count: nat, ghost start: map<nat, File>)
    returns (written: bool)
    requires offset + count <= |content| && Copied(start, kernel.files, destination, content, offset)
    requires !kernel.files[destination].isSealed
    modifies kernel`files, kernel`script
    ensures OnlyGrew(start, kernel.files, destination)
    ensures written ==> Copied(start, kernel.files, destination, content, offset + count)
    ensures written <==> WritePass(old(kernel.script), count).Some?
    ensures written ==> kernel.script == WritePass(old(kernel.script), count).value
  {
    ghost var before := kernel.files;
    written := WriteAll(kernel, destination, content[offset..offset + count]);
    GrewOn(start, before, kernel.files, destination);
    if written {
      CopiedMore(start, before, kernel.files, destination, content, offset, count);
    }
  }

  /** Copying `left` bytes from here on leaves what copying `size` left from the start. */
  ghost predicate OnTheWay(start: seq<Outcome>, size: nat, script: seq<Outcome>, left: nat) {
    CopyPass(script, left) == CopyPass(start, size)
  }

  /** What one read does to the copying of `left` bytes. */
  lemma ReadInCopy(
    start: seq<Outcome>, size: nat, before: seq<Outcome>, after: seq<Outcome>, left: nat, r: Transfer)
    requires 0 < left && Transfers(before, after, Min(BUFFER_SIZE, left), r) && OnTheWay(start, size, before, left)
    ensures r.TryAgain? ==> OnTheWay(start, size, after, left)
    ensures r.Error? || r == Count(0) ==> CopyPass(start, size).None?
    ensures r.Count? && r.count > 0 ==>
      && r.count <= left
      && (var written := WritePass(after, r.count);
          if written.None? then CopyPass(start, size).None? else OnTheWay(start, size, written.value, left - r.count))
  {
  }

  /** Appends all of `source` to `destination`, whatever signals and short counts
      interrupt the copying; the size is checked first. */
  method CopyInstallBytes(kernel: Kernel, source: nat, destination: nat, maximum: nat) returns (copied: Option<nat>)
    requires source in kernel.files && destination in kernel.files && source != destination
    requires !kernel.files[destination].isSealed
    modifies kernel`files, kernel`script
    ensures OnlyGrew(old(kernel.files), kernel.files, destination)
    ensures var file := old(kernel.files)[source];
      && (copied.Some? <==>
            file.isRegular && |file.content| <= maximum && CopyPass(old(kernel.script), |file.content|).Some?)
      && (copied.Some? ==>
            && copied.value == |file.content|
            && kernel.files[destination].content == old(kernel.files[destination].content) + file.content
            && kernel.script == CopyPass(old(kernel.script), |file.content|).value)
  {
    var file := kernel.files[source];
    if !file.isRegular || |file.content| > maximum {
      return None;
    }
    var offset := 0;
    ghost var start := kernel.files;
    NothingCopied(start, destination, file.content);
    while offset < |file.content|
      invariant Copied(start, kernel.files, destination, file.content, offset)
      invariant OnTheWay(old(kernel.script), |file.content|, kernel.script, |file.content| - offset)
      decreases |file.content| - offset, |kernel.script|
    {
      ghost var script := kernel.script;
      var count := kernel.Read(source, Min(BUFFER_SIZE, |file.content| - offset), offset);
      ReadInCopy(old(kernel.script), |file.content|, script, kernel.script, |file.content| - offset, count);
      if count.TryAgain? {
        continue;
      }
      if count.Error? || count.count == 0 {
        return None;
      }
      var written := WriteChunk(kernel, destination, file.content, offset, count.count, start);
      if !written {
        return None;
      }
      offset := offset + count.count;
    }
    AllCopied(start, kernel.files, destination, file.content);
    copied := Some(|file.content|);
  }

  // ----- comparing an artifact with its sealed copy -----

  ghost function AfterSignals(script: seq<Outcome>): seq<Outcome> {
    if script != [] && script[0].Interrupted? then AfterSignals(script[1..]) else script
  }

  /** What is left of the script after one read that returns all `count` bytes. */
  ghost function FullRead(script: seq<Outcome>, count: nat): Option<seq<Outcome>> {
    var rest := AfterSignals(script);
    if rest == [] then Some([])
    else if rest[0].Upto? && rest[0].count >= count then Some(rest[1..])
    else None
  }

  /** Both files are read to the end, chunk by chunk, with no short read. */
  ghost function FullPass(script: seq<Outcome>, size: nat): Option<seq<Outcome>>
    decreases size
  {
    if size == 0 then Some(script)
    else
      var chunk := Min(BUFFER_SIZE, size);
      var first := FullRead(script, chunk);
      if first.None? then None
      else
        var second := FullRead(first.value, chunk);
        if second.None? then None else FullPass(second.value, size - chunk)
  }

  /** One read of the comparison: retried after signals, and only a full count
      will do. */
  method ReadChunk(kernel: Kernel, fd: nat, size: nat, offset: nat) returns (full: bool)
    requires fd in kernel.files && offset + size <= |kernel.files[fd].content|
    modifies kernel`script
    ensures full <==> FullRead(old(kernel.script), size).Some?
    ensures full ==> kernel.script == FullRead(old(kernel.script), size).value
  {
    var r := kernel.Read(fd, size, offset);
    while r.TryAgain?
      invariant !r.TryAgain? ==> (r == Count(size) <==> FullRead(old(kernel.script), size).Some?)
      invariant r == Count(size) ==> FullRead(old(kernel.script), size) == Some(kernel.script)
      invariant r.TryAgain? ==> FullRead(kernel.script, size) == FullRead(old(kernel.script), size)
      decreases r.TryAgain?, |kernel.script|
    {
      r := kernel.Read(fd, size, offset);
    }
    full := r == Count(size);
  }

  /** The recheck before an install.  It passes exactly when the copy is sealed,
      the bytes agree, and no read of the pass came back short. */
  method RequireSameInstallContent(kernel: Kernel, source: nat, snapshot: Option<nat>) returns (same: bool)
    requires source in kernel.files && (snapshot.Some? ==> snapshot.value in kernel.files)
    modifies kernel`script
    ensures same <==>
      && snapshot.Some? && kernel.files[snapshot.value].isSealed
      && kernel.files[source].content == kernel.files[snapshot.value].content
      && FullPass(old(kernel.script), |kernel.files[source].content|).Some?
    ensures same ==> kernel.script == FullPass(old(kernel.script), |kernel.files[source].content|).value
  {
    if snapshot.None? || !kernel.files[snapshot.value].isSealed {
      return false;
    }
    var current, saved := kernel.files[source].content, kernel.files[snapshot.value].content;
    if |current| != |saved| {
      return false;
    }
    var offset := 0;
    while offset < |saved|
      invariant 0 <= offset <= |saved|
      invariant current[..offset] == saved[..offset]
      invariant FullPass(kernel.script, |saved| - offset) == FullPass(old(kernel.script), |saved|)
    {
      var count := Min(BUFFER_SIZE, |saved| - offset);
      var first := ReadChunk(kernel, source, count, offset);
      var second := ReadChunk(kernel, snapshot.value, count, offset);
      if !first || !second {
        return false;
      }
      if current[offset..offset + count] != saved[offset..offset + count] {
        assert current[offset..offset + count] == current[..offset + count][offset..];
        return false;
      }
      assert current[..offset + count] == current[..offset] + current[offset..offset + count];
      assert saved[..offset + count] == saved[..offset] + saved[offset..offset + count];
      offset := offset + count;
    }
    assert current[..offset] == current && saved[..offset] == saved;
    same := true;
  }

  /** A short read refuses even bytes that agree: the comparison asks every read
      for its full count, while the copy accepts any. */
  lemma ShortReadRefusesEqualBytes(n: nat)
    requires 0 < n
    ensures FullPass([Upto(n)], n + 1).None? <==> n < BUFFER_SIZE
    ensures Benign([Upto(n)])
  {
    assert AfterSignals([Upto(n)]) == [Upto(n)];
    assert AfterSignals([]) == [];
    NoScriptPasses(n + 1);
    if n >= BUFFER_SIZE {
      NoScriptPasses(n + 1 - BUFFER_SIZE);
    }
  }

  lemma {:induction false} NoScriptPasses(size: nat)
    ensures FullPass([], size) == Some([])
    decreases size
  {
    if size > 0 {
      NoScriptPasses(size - Min(BUFFER_SIZE, size));
    }
  }

  /** Signals and full counts never make the comparison refuse. */
  lemma {:induction false} FullCountsPass(script: seq<Outcome>, size: nat)
    requires NeverShort(script)
    ensures FullPass(script, size).Some? && NeverShort(FullPass(script, size).value)
    decreases size
  {
    if size > 0 {
      var chunk := Min(BUFFER_SIZE, size);
      OneFullRead(script, chunk);
      var first := FullRead(script, chunk).value;
      OneFullRead(first, chunk);
      FullCountsPass(FullRead(first, chunk).value, size - chunk);
    }
  }

  lemma {:induction false} OneFullRead(script: seq<Outcome>, count: nat)
    requires NeverShort(script) && count <= BUFFER_SIZE
    ensures FullRead(script, count).Some? && NeverShort(FullRead(script, count).value)
  {
    if script != [] && script[0].Interrupted? {
      OneFullRead(script[1..], count);
    }
  }
}
