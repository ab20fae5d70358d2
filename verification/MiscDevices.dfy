/** The character driver with one small buffer per device of the device tree. */
module MiscDevices {
  import opened Wrappers

  const BUFFER_SIZE := 1024

  type Byte = b: int | 0 <= b < 256

  // ----- one device, as a value -----

  datatype DevState = DevState(buffer: seq<Byte>, size: int)

  predicate ValidDev(d: DevState)
  {
    |d.buffer| == BUFFER_SIZE && 0 <= d.size <= BUFFER_SIZE
  }

  type Dev = d: DevState | ValidDev(d)
    witness DevState(seq(BUFFER_SIZE, _ => 0), 0)

  const EMPTY: Dev := DevState(seq(BUFFER_SIZE, _ => 0), 0)

  /** What a read can see. */
  function Content(d: Dev): seq<Byte> { d.buffer[..d.size] }

  /** A write that the driver accepts. */
  predicate Acceptable(data: seq<Byte>) { 0 < |data| < BUFFER_SIZE }

  /** What a complete copy of acceptable data leaves: the data, closed by a NUL. */
  function Written(d: Dev, data: seq<Byte>): (r: Dev)
    requires Acceptable(data)
    ensures Content(r) == data + [0]
  {
    DevState(data + [0] + d.buffer[|data| + 1..], |data| + 1)
  }

  /** What a copy that stops after some bytes leaves: the kernel zeroes the rest of the
      range, and the driver keeps the old size. */
  function HalfWritten(d: Dev, data: seq<Byte>, copied: nat): Dev
    requires Acceptable(data) && copied < |data|
  {
    d.(buffer := data[..copied] + seq(|data| - copied, _ => 0) + d.buffer[|data|..])
  }

  /** The bytes a read delivers; the whole content or nothing. */
  function ReadData(d: Dev, pos: nat, count: nat): seq<Byte>
  {
    if count < d.size || pos >= d.size then [] else Content(d)
  }

  // ----- the driver's memory -----

  class Priv {
    const buffer: array<Byte>
    var bufferSize: int
    var name: string

    constructor ()
      ensures Valid() && View() == EMPTY && name == ""
      ensures fresh(buffer)
    {
      buffer := new Byte[BUFFER_SIZE](_ => 0);
      bufferSize, name := 0, "";
      new;
      assert buffer[..] == seq(BUFFER_SIZE, _ => 0);
    }

    ghost predicate Valid()
      reads this
    {
      buffer.Length == BUFFER_SIZE && 0 <= bufferSize <= BUFFER_SIZE
    }

    ghost function View(): Dev
      requires Valid()
      reads this, buffer
    {
      DevState(buffer[..], bufferSize)
    }
  }

  class OpenFile {
    const device: Priv
    var pos: nat

    constructor (device: Priv)
      ensures this.device == device && pos == 0
    {
      this.device, pos := device, 0;
    }

    /** The read file operation. A failed copy to user space delivers nothing. */
    method Read(nullBuffer: bool, count: nat, copySucceeds: bool) returns (n: int, data: seq<Byte>)
      requires device.Valid()
      modifies this`pos
      ensures n == |data|
      ensures nullBuffer || !copySucceeds ==> n == 0 && pos == old(pos)
      ensures !nullBuffer && copySucceeds ==>
        && data == ReadData(device.View(), old(pos), count)
        && pos == if n > 0 then device.bufferSize else old(pos)
    {
      if nullBuffer || count < device.bufferSize {
        return 0, [];
      }
      if pos >= device.bufferSize {
        return 0, [];
      }
      if !copySucceeds {
        return 0, [];
      }
      data := device.buffer[..device.bufferSize];
      pos := device.bufferSize;
      return device.bufferSize, data;
    }

    /** The write file operation. copied is how many bytes can be read from user space. */
    method Write(data: seq<Byte>, copied: nat) returns (n: int)
      requires device.Valid() && copied <= |data|
      modifies this`pos, device`bufferSize, device.buffer
      ensures device.Valid()
      ensures !Acceptable(data) ==> n == 0 && pos == old(pos) && device.View() == old(device.View())
      ensures Acceptable(data) ==> pos == 0
      ensures n > 0 <==> 0 < |data| < 1024 && copied == |data|
      ensures Acceptable(data) && copied == |data| ==>
        n == |data| && device.View() == Written(old(device.View()), data)
      ensures Acceptable(data) && copied < |data| ==>
        n == 0 && device.View() == HalfWritten(old(device.View()), data, copied)
    {
      if |data| == 0 {
        return 0;
      }
      if |data| >= BUFFER_SIZE {
        return 0;
      }
      pos := 0;
      var left := CopyFromUser(device.buffer, data, copied);
      if left != 0 {
        return 0;
      }
      device.buffer[|data|] := 0;
      device.bufferSize := |data| + 1;
      assert device.buffer[..] == data + [0] + old(device.buffer[..])[|data| + 1..];
      return |data|;
    }
  }

  /** The kernel's copy_from_user: the number of bytes not copied, which it zeroes. */
  method CopyFromUser(to: array<Byte>, data: seq<Byte>, copied: nat) returns (left: nat)
    requires copied <= |data| <= to.Length
    modifies to
    ensures left == |data| - copied
    ensures to[..] == data[..copied] + seq(left, _ => 0) + old(to[..])[|data|..]
  {
    for i := 0 to |data|
      invariant forall k :: 0 <= k < i ==> to[k] == if k < copied then data[k] else 0
      invariant forall k :: i <= k < to.Length ==> to[k] == old(to[k])
    {
      to[i] := if i < copied then data[i] else 0;
    }
    left := |data| - copied;
  }

  // ----- any number of devices and open files -----

  datatype File = File(device: nat, pos: nat)

  datatype System = System(devs: seq<Dev>, files: seq<File>)

  /** Reads whose copy to user space may fail, writes of which a part may be readable. */
  datatype Op =
    | Read(file: nat, count: nat, copySucceeds: bool)
    | Write(file: nat, data: seq<Byte>, copied: nat)

  predicate ValidSystem(s: System)
  {
    forall f :: 0 <= f < |s.files| ==> s.files[f].device < |s.devs|
  }

  /** One operation. Operations on files that are not open do nothing. */
  function Do(s: System, op: Op): (t: System)
    requires ValidSystem(s)
    ensures ValidSystem(t) && |t.devs| == |s.devs| && |t.files| == |s.files|
    ensures forall f :: 0 <= f < |s.files| ==> t.files[f].device == s.files[f].device
  {
    if op.file >= |s.files| then s
    else
      var file := s.files[op.file];
      var dev := s.devs[file.device];
      match op
      case Read(f, count, copySucceeds) =>
        if !copySucceeds || ReadData(dev, file.pos, count) == [] then s
        else s.(files := s.files[f := file.(pos := dev.size)])
      case Write(f, data, copied) =>
        if !Acceptable(data) then s
        else
          var after := if copied < |data| then HalfWritten(dev, data, copied) else Written(dev, data);
          s.(devs := s.devs[file.device := after], files := s.files[f := file.(pos := 0)])
  }

  function Run(s: System, ops: seq<Op>): (t: System)
    requires ValidSystem(s)
    ensures ValidSystem(t) && |t.devs| == |s.devs| && |t.files| == |s.files|
    ensures forall f :: 0 <= f < |s.files| ==> t.files[f].device == s.files[f].device
  {
    if ops == [] then s else Do(Run(s, ops[..|ops| - 1]), ops[|ops| - 1])
  }

  /** The operation is an accepted write to device d. */
  predicate Writes(s: System, op: Op, d: nat)
  {
    op.Write? && op.file < |s.files| && s.files[op.file].device == d && Acceptable(op.data)
  }

  /** No accepted write to device d is copied only in part. */
  predicate CopiedWhole(s: System, ops: seq<Op>, d: nat)
  {
    forall i :: 0 <= i < |ops| && Writes(s, ops[i], d) ==> ops[i].copied >= |ops[i].data|
  }

  /** What was last written to a device, with the closing NUL; before any write, its
      content at the start. */
  function LastWritten(s: System, ops: seq<Op>, d: nat): seq<Byte>
    requires d < |s.devs|
  {
    if ops == [] then Content(s.devs[d])
    else if Writes(s, ops[|ops| - 1], d) then ops[|ops| - 1].data + [0]
    else LastWritten(s, ops[..|ops| - 1], d)
  }

  /** Isolation: whatever is done on whatever files, with whatever failures elsewhere, a
      device whose own writes are copied whole holds the last of them. */
  lemma {:induction false} HoldsLastWrite(s: System, ops: seq<Op>, d: nat)
    requires ValidSystem(s) && d < |s.devs| && CopiedWhole(s, ops, d)
    ensures Content(Run(s, ops).devs[d]) == LastWritten(s, ops, d)
  {
    if ops != [] {
      HoldsLastWrite(s, ops[..|ops| - 1], d);
      assert Writes(s, ops[|ops| - 1], d) ==> ops[|ops| - 1].copied >= |ops[|ops| - 1].data|;
    }
  }

  /** Round trip: a read far enough back, with room enough, returns exactly the last write. */
  lemma ReadReturnsLastWrite(s: System, ops: seq<Op>, f: nat, count: nat)
    requires ValidSystem(s) && f < |s.files| && CopiedWhole(s, ops, s.files[f].device)
    ensures var t := Run(s, ops);
      var file, last := t.files[f], LastWritten(s, ops, s.files[f].device);
      ReadData(t.devs[file.device], file.pos, count)
      == if file.pos < |last| <= count then last else []
  {
    HoldsLastWrite(s, ops, s.files[f].device);
  }

  predicate Uses(op: Op, f: nat) { op.file == f }

  lemma {:induction false} PositionKept(s: System, ops: seq<Op>, f: nat)
    requires ValidSystem(s) && f < |s.files|
    requires forall i :: 0 <= i < |ops| ==> !Uses(ops[i], f)
    ensures Run(s, ops).files[f] == s.files[f]
  {
    if ops != [] {
      assert !Uses(ops[|ops| - 1], f);
      PositionKept(s, ops[..|ops| - 1], f);
    }
  }

  /** After a read that delivered the content, the next read on the same file delivers
      something if and only if its device meanwhile got a longer content through another
      file (and there is room for it); so without a write in between it ends the file. */
  lemma NextRead(s: System, ops: seq<Op>, f: nat, first: nat, count: nat)
    requires ValidSystem(s) && f < |s.files|
    requires ReadData(s.devs[s.files[f].device], s.files[f].pos, first) != []
    requires CopiedWhole(s, ops, s.files[f].device) && forall i :: 0 <= i < |ops| ==> !Uses(ops[i], f)
    ensures var d := s.files[f].device;
      var t := Run(Do(s, Read(f, first, true)), ops);
      ReadData(t.devs[d], t.files[f].pos, count) != []
      <==> |Content(s.devs[d])| < |LastWritten(s, ops, d)| <= count
  {
    var u, d := Do(s, Read(f, first, true)), s.files[f].device;
    PositionKept(u, ops, f);
    HoldsLastWrite(u, ops, d);
    SameLastWritten(s, u, ops, d);
  }

  lemma {:induction false} SameLastWritten(s: System, u: System, ops: seq<Op>, d: nat)
    requires s.devs == u.devs && d < |s.devs| && |s.files| == |u.files|
    requires forall f :: 0 <= f < |s.files| ==> s.files[f].device == u.files[f].device
    ensures LastWritten(s, ops, d) == LastWritten(u, ops, d)
  {
    if ops != [] { SameLastWritten(s, u, ops[..|ops| - 1], d); }
  }

  /** A write that fails half way is answered with 0 but still damages the old content,
      unless what it wrote over is the same. */
  lemma FailedWriteDamages(d: Dev, data: seq<Byte>, copied: nat)
    requires Acceptable(data) && copied < |data|
    ensures Content(HalfWritten(d, data, copied)) == Content(d)
       <==> forall k :: 0 <= k < |data| && k < d.size ==> d.buffer[k] == if k < copied then data[k] else 0
  {
    var before, after := Content(d), Content(HalfWritten(d, data, copied));
    assert forall k :: 0 <= k < d.size ==>
      after[k] == if k < copied then data[k] else if k < |data| then 0 else before[k];
    if after == before {
      forall k | 0 <= k < |data| && k < d.size ensures d.buffer[k] == if k < copied then data[k] else 0 {
        assert before[k] == after[k];
      }
    }
  }

  // ----- the operations on the driver's memory -----

  /** What an operation returns: the count, and for a read its bytes. */
  datatype Answer = Answer(n: nat, data: seq<Byte>)

  function AnswerTo(s: System, op: Op): Answer
    requires ValidSystem(s)
  {
    if op.file >= |s.files| then Answer(0, [])
    else
      var file := s.files[op.file];
      match op
      case Read(_, count, copySucceeds) =>
        var data := if copySucceeds then ReadData(s.devs[file.device], file.pos, count) else [];
        Answer(|data|, data)
      case Write(_, data, copied) => Answer(if Acceptable(data) && copied >= |data| then |data| else 0, [])
  }

  function AnswersTo(s: System, ops: seq<Op>): seq<Answer>
    requires ValidSystem(s)
  {
    if ops == [] then []
    else AnswersTo(s, ops[..|ops| - 1]) + [AnswerTo(Run(s, ops[..|ops| - 1]), ops[|ops| - 1])]
  }

  /** No two devices share an object or a buffer. */
  ghost predicate Separate(devs: seq<Priv>)
  {
    forall d, e :: 0 <= d < e < |devs| ==> devs[d] != devs[e] && devs[d].buffer != devs[e].buffer
  }

  /** Devices that hold nothing yet. */
  ghost predicate AllEmpty(devs: seq<Priv>)
    reads devs, set d | 0 <= d < |devs| :: devs[d].buffer
  {
    forall d :: 0 <= d < |devs| ==> devs[d].Valid() && devs[d].View() == EMPTY
  }

  predicate Distinct(files: seq<OpenFile>)
  {
    forall f, g :: 0 <= f < g < |files| ==> files[f] != files[g]
  }

  /** The objects are in the state s. */
  ghost predicate Represents(devs: seq<Priv>, files: seq<OpenFile>, s: System)
    reads devs, files, set d | 0 <= d < |devs| :: devs[d].buffer
  {
    && ValidSystem(s) && |s.devs| == |devs| && |s.files| == |files|
    && (forall d :: 0 <= d < |devs| ==> devs[d].Valid() && devs[d].View() == s.devs[d])
    && (forall f :: 0 <= f < |files| ==> files[f].device == devs[s.files[f].device] && files[f].pos == s.files[f].pos)
  }

  /** Empty devices and files just opened on them. */
  function Booted(n: nat, on: seq<nat>): System
  {
    System(seq(n, _ => EMPTY), seq(|on|, f requires 0 <= f < |on| => File(on[f], 0)))
  }

  method OpenAll(devs: seq<Priv>, on: seq<nat>) returns (files: seq<OpenFile>)
    requires forall f :: 0 <= f < |on| ==> on[f] < |devs|
    ensures |files| == |on| && Distinct(files)
    ensures forall f :: 0 <= f < |on| ==> fresh(files[f]) && files[f].device == devs[on[f]] && files[f].pos == 0
  {
    files := [];
    for i := 0 to |on|
      invariant |files| == i && Distinct(files)
      invariant forall f :: 0 <= f < i ==> fresh(files[f]) && files[f].device == devs[on[f]] && files[f].pos == 0
    {
      var file := new OpenFile(devs[on[i]]);
      files := files + [file];
    }
  }

  /** One operation on the heap. */
  method DoOp(devs: seq<Priv>, files: seq<OpenFile>, op: Op, ghost s: System) returns (answer: Answer)
    requires Separate(devs) && Distinct(files) && Represents(devs, files, s)
    modifies files, devs, set d | 0 <= d < |devs| :: devs[d].buffer
    ensures Represents(devs, files, Do(s, op)) && answer == AnswerTo(s, op)
  {
    answer := Answer(0, []);
    if op.file < |files| {
      match op {
        case Read(f, count, copySucceeds) =>
          var n, data := files[f].Read(false, count, copySucceeds);
          answer := Answer(n, data);
        case Write(f, data, copied) =>
          var n := files[f].Write(data, if copied < |data| then copied else |data|);
          answer := Answer(n, []);
      }
    }
  }

  /** Any operations on any files leave every buffer, size and position as in the model,
      because each device has a buffer of its own; the answers are the model's too. */
  method RunOps(devs: seq<Priv>, files: seq<OpenFile>, ops: seq<Op>, ghost s: System) returns (answers: seq<Answer>)
    requires Separate(devs) && Distinct(files) && Represents(devs, files, s)
    modifies files, devs, set d | 0 <= d < |devs| :: devs[d].buffer
    ensures Represents(devs, files, Run(s, ops)) && answers == AnswersTo(s, ops)
  {
    answers := [];
    for i := 0 to |ops|
      invariant Represents(devs, files, Run(s, ops[..i])) && answers == AnswersTo(s, ops[..i])
    {
      assert ops[..i + 1][..i] == ops[..i];
      var answer := DoOp(devs, files, ops[i], Run(s, ops[..i]));
      answers := answers + [answer];
    }
    assert ops[..|ops|] == ops;
  }

  // ----- probe and remove -----

  /** A child of the device tree node. */
  datatype Child = Child(available: bool, attribute: Option<string>, fullName: string)

  predicate IsOn(c: Child) { c.available && c.attribute == Some("on") }

  /** The children to register, in order. */
  function OnChildren(children: seq<Child>): seq<Child>
  {
    if children == [] then []
    else OnChildren(children[..|children| - 1]) + if IsOn(children[|children| - 1]) then [children[|children| - 1]] else []
  }

  lemma {:induction false} OnChildrenPrefix(children: seq<Child>, i: nat)
    requires i <= |children|
    ensures OnChildren(children[..i]) <= OnChildren(children)
    decreases |children|
  {
    if i == |children| {
      assert children[..i] == children;
    } else {
      assert children[..|children| - 1][..i] == children[..i];
      OnChildrenPrefix(children[..|children| - 1], i);
    }
  }

  /** Each child that is available with the attribute "on" is taken as often as it is there,
      and no other. */
  lemma {:induction false} OnChildrenExactly(children: seq<Child>, c: Child)
    ensures multiset(OnChildren(children))[c]
         == if c.available && c.attribute == Some("on") then multiset(children)[c] else 0
  {
    if children != [] {
      OnChildrenExactly(children[..|children| - 1], c);
      assert children == children[..|children| - 1] + [children[|children| - 1]];
    }
  }

  /** The name is that of a child that is on. */
  predicate NamesOn(children: seq<Child>, name: string)
  {
    exists c :: c in children && c.available && c.attribute == Some("on") && c.fullName == name
  }

  lemma NamesOfOn(children: seq<Child>, name: string)
    ensures NamesOn(children, name)
       <==> exists k :: 0 <= k < |OnChildren(children)| && OnChildren(children)[k].fullName == name
  {
    var taken := OnChildren(children);
    if NamesOn(children, name) {
      var c :| c in children && c.available && c.attribute == Some("on") && c.fullName == name;
      OnChildrenExactly(children, c);
      assert c in multiset(children) && c in multiset(taken);
      var k :| 0 <= k < |taken| && taken[k] == c;
    }
    if k :| 0 <= k < |taken| && taken[k].fullName == name {
      OnChildrenExactly(children, taken[k]);
      assert taken[k] in multiset(taken);
      assert taken[k] in multiset(children);
    }
  }

  /** A list without the given entries. */
  function Without(list: seq<Priv>, gone: seq<Priv>): seq<Priv>
  {
    if list == [] then []
    else
      var last := list[|list| - 1];
      Without(list[..|list| - 1], gone) + if last in gone then [] else [last]
  }

  lemma {:induction false} WithoutStep(list: seq<Priv>, gone: seq<Priv>, p: Priv)
    ensures Without(Without(list, gone), [p]) == Without(list, gone + [p])
  {
    if list != [] {
      var before, last := list[..|list| - 1], list[|list| - 1];
      WithoutStep(before, gone, p);
      if last !in gone {
        var kept := Without(before, gone) + [last];
        assert kept[..|kept| - 1] == Without(before, gone);
      } else {
        assert Without(list, gone) == Without(before, gone);
      }
    }
  }

  /** Removing what was registered at the end, and only there, restores the list. */
  lemma {:induction false} WithoutRestores(before: seq<Priv>, added: seq<Priv>, gone: seq<Priv>)
    requires forall p :: p in before ==> p !in gone
    requires forall p :: p in added ==> p in gone
    ensures Without(before + added, gone) == before
    decreases |before| + |added|
  {
    if added != [] {
      assert (before + added)[..|before + added| - 1] == before + added[..|added| - 1];
      WithoutRestores(before, added[..|added| - 1], gone);
    } else if before != [] {
      assert before + added == before;
      assert before[..|before| - 1] + [] == before[..|before| - 1];
      WithoutRestores(before[..|before| - 1], [], gone);
    }
  }

  /** The platform driver on one device tree node. Outcomes of misc_register come from
      outside: status k is the result of the k-th registration. */
  class Platform {
    var priv: seq<Priv>              // the allocated array
    var nbDevices: nat
    var registered: seq<Priv>        // the kernel's list of misc devices

    constructor ()
      ensures priv == [] && nbDevices == 0 && registered == []
    {
      priv, nbDevices, registered := [], 0, [];
    }

    /** First pass. No node, no devices. */
    static method CountDeviceOn(node: Option<seq<Child>>) returns (count: nat)
      ensures count == if node.Some? then |OnChildren(node.value)| else 0
    {
      count := 0;
      if node.Some? {
        var children := node.value;
        for i := 0 to |children|
          invariant count == |OnChildren(children[..i])|
        {
          assert children[..i + 1][..i] == children[..i];
          if children[i].available && children[i].attribute.Some? {
            if children[i].attribute.value == "on" {
              count := count + 1;
            }
          }
        }
        assert children[..|children|] == children;
      }
    }

    method Allocate(count: nat)
      modifies this`priv
      ensures |priv| == count && AllEmpty(priv) && Separate(priv)
      ensures forall k :: 0 <= k < count ==> fresh(priv[k]) && fresh(priv[k].buffer)
    {
      priv := [];
      for i := 0 to count
        invariant |priv| == i && AllEmpty(priv) && Separate(priv)
        invariant forall k :: 0 <= k < i ==> fresh(priv[k]) && fresh(priv[k].buffer)
      {
        var p := new Priv();
        priv := priv + [p];
      }
    }

    /** Second pass, with every registration succeeding or the first failure ending it.
        The fill index stays inside the counted array; a successful probe has used all of
        it and registered exactly the children that are on, in order. */
    method Probe(node: Option<seq<Child>>, headMemory: bool, arrayMemory: bool, status: nat -> int)
      returns (retval: int)
      modifies this
      ensures var memory := headMemory && arrayMemory;
        !memory ==> retval == -12 && registered == old(registered) && priv == old(priv)
      ensures headMemory && arrayMemory ==> nbDevices == |priv| == if node.Some? then |OnChildren(node.value)| else 0
      ensures headMemory && arrayMemory && retval == 0 ==>
        && registered == old(registered) + priv
        && (forall k :: 0 <= k < nbDevices ==> status(k) == 0 && priv[k].name == OnChildren(node.value)[k].fullName)
      ensures headMemory && arrayMemory && retval == 0 && node.Some? ==>
        forall name :: (exists k :: 0 <= k < |priv| && priv[k].name == name) <==> NamesOn(node.value, name)
      ensures headMemory && arrayMemory && retval != 0 ==> exists k: nat ::
        k < nbDevices && status(k) == retval && registered == old(registered) + priv[..k]
      ensures headMemory && arrayMemory ==> Separate(priv) && AllEmpty(priv)
      ensures headMemory && arrayMemory ==> forall k :: 0 <= k < |priv| ==> fresh(priv[k]) && fresh(priv[k].buffer)
    {
      if !headMemory {
        return -12;
      }
      nbDevices := CountDeviceOn(node);
      if !arrayMemory {
        return -12;
      }
      Allocate(nbDevices);
      retval := 0;
      if node.Some? {
        retval := RegisterAll(node.value, status);
        forall name ensures NamesOn(node.value, name)
          <==> exists k :: 0 <= k < |OnChildren(node.value)| && OnChildren(node.value)[k].fullName == name
        {
          NamesOfOn(node.value, name);
        }
      }
    }

    method RegisterAll(children: seq<Child>, status: nat -> int) returns (retval: int)
      requires |priv| == |OnChildren(children)|
      requires forall j, k :: 0 <= j < k < |priv| ==> priv[j] != priv[k]
      modifies this`registered, set k | 0 <= k < |priv| :: priv[k]`name
      ensures retval == 0 ==>
        && registered == old(registered) + priv
        && (forall k :: 0 <= k < |priv| ==> status(k) == 0 && priv[k].name == OnChildren(children)[k].fullName)
      ensures retval != 0 ==> exists k: nat ::
        k < |priv| && status(k) == retval && registered == old(registered) + priv[..k]
    {
      var i := 0;
      for c := 0 to |children|
        invariant i == |OnChildren(children[..c])| <= |priv|
        invariant registered == old(registered) + priv[..i]
        invariant forall k :: 0 <= k < i ==> status(k) == 0 && priv[k].name == OnChildren(children)[k].fullName
      {
        assert children[..c + 1][..c] == children[..c];
        OnChildrenPrefix(children, c + 1);
        if children[c].available && children[c].attribute.Some? {
          if children[c].attribute.value == "on" {
            priv[i].name := children[c].fullName;
            retval := status(i);
            i := i + 1;
            if retval != 0 {
              return;
            }
            registered := registered + [priv[i - 1]];
          }
        }
      }
      assert children[..|children|] == children && priv[..i] == priv;
      retval := 0;
    }

    method Deregister(p: Priv)
      modifies this`registered
      ensures registered == Without(old(registered), [p])
    {
      registered := Without(registered, [p]);
    }

    /** Deregisters the devices of the array, all of them and no others. */
    method Remove()
      requires nbDevices == |priv|
      modifies this`registered
      ensures registered == Without(old(registered), priv)
    {
      WithoutNothing(registered);
      for i := 0 to nbDevices
        invariant registered == Without(old(registered), priv[..i])
      {
        WithoutStep(old(registered), priv[..i], priv[i]);
        assert priv[..i + 1] == priv[..i] + [priv[i]];
        Deregister(priv[i]);
      }
      assert priv[..nbDevices] == priv;
    }

    /** Probe, open files on the devices (on says which), and operate on them: the answers
        are those of as many empty devices. */
    method Session(node: Option<seq<Child>>, status: nat -> int, on: seq<nat>, ops: seq<Op>)
      returns (retval: int, answers: seq<Answer>)
      requires forall f :: 0 <= f < |on| ==> node.Some? && on[f] < |OnChildren(node.value)|
      modifies this
      ensures retval == 0 ==>
        answers == AnswersTo(Booted(if node.Some? then |OnChildren(node.value)| else 0, on), ops)
    {
      answers := [];
      retval := Probe(node, true, true, status);
      if retval == 0 {
        var files := OpenAll(priv, on);
        answers := RunOps(priv, files, ops, Booted(|priv|, on));
      }
    }

    /** A successful probe and the remove that follows leave the kernel's list unchanged. */
    method ProbeAndRemove(node: Option<seq<Child>>, status: nat -> int) returns (retval: int)
      modifies this
      ensures retval == 0 ==> registered == old(registered)
    {
      retval := Probe(node, true, true, status);
      if retval == 0 {
        WithoutRestores(old(registered), priv, priv);
        Remove();
      }
    }
  }

  lemma {:induction false} WithoutNothing(list: seq<Priv>)
    ensures Without(list, []) == list
  {
    if list != [] { WithoutNothing(list[..|list| - 1]); }
  }
}
