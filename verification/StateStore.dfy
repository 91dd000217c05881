/**
 The lease store: an in-memory map, mutated and rolled back in place, and its file, replaced by
 writing a temporary file and renaming it. Rename is taken as atomic and durable. Every effect on
 the directory is entered in a ghost trace, so a statement about all images of the trace is a
 statement about stopping the process after any effect.
 */
module StateStore {
  import opened Strings
  import opened StateCodec

  datatype Image = Image(target: Option<File>, temporaries: map<nat, File>)

  /**
   What the operating system answers during one persist: `true` marks a failing call. A failing
   write has put down the first `written` characters.
   */
  datatype Answers = Answers(
    mkdir: bool, protect: bool, encode: bool, create: bool, chmod: bool, write: bool,
    sync: bool, close: bool, rename: bool, remove: bool,
    name: nat, createMode: nat, written: nat)
  {
    /** No call up to and including the rename fails. */
    predicate Succeeds() {
      !mkdir && !protect && !encode && !create && !chmod && !write && !sync && !close && !rename
    }

    /** The persist fails after it has created its temporary file. */
    predicate FailsWithTemporary() {
      !mkdir && !protect && !encode && !create && (chmod || write || sync || close || rename)
    }
  }

  class Directory {
    var target: Option<File>
    var temporaries: map<nat, File>
    ghost var trace: seq<Image>

    constructor (target: Option<File>)
      ensures this.target == target && temporaries == map[] && trace == []
    {
      this.target := target;
      temporaries := map[];
      trace := [];
    }

    method CreateTemp(name: nat, mode: nat)
      requires name !in temporaries
      modifies this
      ensures target == old(target) && temporaries == old(temporaries)[name := File(true, mode, "")]
      ensures trace == old(trace) + [Image(target, temporaries)]
    {
      temporaries := temporaries[name := File(true, mode, "")];
      trace := trace + [Image(target, temporaries)];
    }

    method Update(name: nat, file: File)
      requires name in temporaries
      modifies this
      ensures target == old(target) && temporaries == old(temporaries)[name := file]
      ensures trace == old(trace) + [Image(target, temporaries)]
    {
      temporaries := temporaries[name := file];
      trace := trace + [Image(target, temporaries)];
    }

    method Remove(name: nat)
      modifies this
      ensures target == old(target) && temporaries == old(temporaries) - {name}
      ensures trace == old(trace) + [Image(target, temporaries)]
    {
      temporaries := temporaries - {name};
      trace := trace + [Image(target, temporaries)];
    }

    method Rename(name: nat)
      requires name in temporaries
      modifies this
      ensures target == Some(old(temporaries)[name]) && temporaries == old(temporaries) - {name}
      ensures trace == old(trace) + [Image(target, temporaries)]
    {
      target, temporaries := Some(temporaries[name]), temporaries - {name};
      trace := trace + [Image(target, temporaries)];
    }

    /** Every image entered since `before` holds the whole old target or the whole new one. */
    ghost predicate AllOrNothing(before: seq<Image>, original: Option<File>, replacement: File)
      reads this
    {
      && before <= trace
      && forall i | |before| <= i < |trace| ::
           trace[i].target == original || trace[i].target == Some(replacement)
    }

    /** Writing the temporary file: `Chmod`, `Write`, `Sync` and `Close` on the open handle. */
    method Fill(content: string, answers: Answers) returns (ok: bool)
      requires answers.name in temporaries && temporaries[answers.name].regular
      modifies this
      ensures target == old(target) && temporaries.Keys == old(temporaries).Keys
      ensures forall n | n in temporaries && n != answers.name :: temporaries[n] == old(temporaries)[n]
      ensures ok == (!answers.chmod && !answers.write && !answers.sync && !answers.close)
      ensures ok ==> temporaries[answers.name] == File(true, OWNER_ONLY, content)
      ensures old(trace) <= trace && forall i | |old(trace)| <= i < |trace| :: trace[i].target == target
    {
      if answers.chmod {
        return false;
      }
      var file := temporaries[answers.name].(mode := OWNER_ONLY);
      Update(answers.name, file);
      if answers.write {
        var written := if answers.written <= |content| then answers.written else |content|;
        Update(answers.name, file.(content := content[..written]));
        return false;
      }
      Update(answers.name, file.(content := content));
      return !answers.sync && !answers.close;
    }

    /** `persistLocked` after the encoding, with its deferred cleanup of the temporary file. */
    method Replace(content: string, answers: Answers) returns (ok: bool)
      requires answers.name !in temporaries
      modifies this
      ensures ok == answers.Succeeds()
      ensures target == if ok then Some(File(true, OWNER_ONLY, content)) else old(target)
      ensures temporaries.Keys ==
        old(temporaries).Keys + (if answers.FailsWithTemporary() && answers.remove then {answers.name} else {})
      ensures forall n | n in old(temporaries) :: temporaries[n] == old(temporaries)[n]
      ensures ok || !answers.remove ==> temporaries == old(temporaries)
      ensures AllOrNothing(old(trace), old(target), File(true, OWNER_ONLY, content))
    {
      if answers.mkdir || answers.protect || answers.encode || answers.create {
        return false;
      }
      CreateTemp(answers.name, answers.createMode);
      var cleanup := true;
      ok := Fill(content, answers);
      if ok && !answers.rename {
        Rename(answers.name);
        cleanup := false;
      } else {
        ok := false;
      }
      if cleanup && !answers.remove {
        Remove(answers.name);
      }
    }
  }

  /** The text encoding of lease maps and its reader, as the store uses them. */
  datatype Codec = Codec(encode: Leases -> string, decode: string -> Option<Leases>) {
    ghost predicate Faithful() {
      forall leases :: decode(encode(leases)) == Some(leases)
    }

    function Written(leases: Leases): File {
      File(true, OWNER_ONLY, encode(leases))
    }

    /** The lease map a target file holds; no file is the empty map. */
    function DiskLeases(target: Option<File>): Option<Leases> {
      if target.None? then Some(map[]) else decode(target.value.content)
    }
  }

  function DecodedLeases(state: Option<Persisted>): Option<Leases> {
    match state
    case Some(Persisted(_, Some(leases))) => Some(leases)
    case _ => None
  }

  function Json(read: Reader): Codec {
    Codec(Encode, text => DecodedLeases(read(text)))
  }

  lemma {:induction false} JsonFaithful(read: Reader)
    requires ReadsOwn(read)
    ensures Json(read).Faithful()
  {
    forall leases ensures Json(read).decode(Json(read).encode(leases)) == Some(leases) {
      assert read(Encode(leases)) == Some(Persisted(1, Some(leases)));
    }
  }

  lemma {:induction false} LoadedIsOnDisk(read: Reader, target: Option<File>)
    requires Load(read, target).Loaded?
    ensures Json(read).DiskLeases(target) == Some(Load(read, target).leases) && ValidLeases(Load(read, target).leases)
  {
  }

  /** Start-up: a store over the lease file, when the file is absent or passes every check. */
  method OpenStateStore(read: Reader, directory: Directory) returns (store: StateStore?)
    requires ReadsOwn(read)
    ensures store == null <==> !Load(read, directory.target).Loaded?
    ensures store != null ==>
      && fresh(store) && store.directory == directory && store.codec == Json(read)
      && store.Valid() && store.leases == Load(read, directory.target).leases && ValidLeases(store.leases)
  {
    var loaded := LoadStateStore(read, directory.target);
    if loaded.Loaded? {
      JsonFaithful(read);
      LoadedIsOnDisk(read, directory.target);
      store := new StateStore(directory, Json(read), loaded.leases);
    } else {
      store := null;
    }
  }

  ghost predicate ValidAccessors(leases: Leases) {
    forall k | k in leases :: ValidOpaqueSecret(leases[k], MAX_ACCESSOR_BYTES)
  }

  class StateStore {
    const directory: Directory
    const codec: Codec
    var leases: Leases

    /** Memory and disk agree, and no recorded accessor is empty or otherwise invalid. */
    ghost predicate Valid()
      reads this, directory
    {
      && codec.Faithful() && codec.DiskLeases(directory.target) == Some(leases)
      && ValidAccessors(leases)
    }

    constructor (directory: Directory, codec: Codec, leases: Leases)
      requires codec.Faithful() && codec.DiskLeases(directory.target) == Some(leases) && ValidAccessors(leases)
      ensures Valid() && this.directory == directory && this.codec == codec && this.leases == leases
    {
      this.directory, this.codec, this.leases := directory, codec, leases;
    }

    /** The recorded accessor, or the empty string: since no recorded accessor is empty, the answer is exact. */
    method Accessor(key: string) returns (accessor: string)
      requires Valid()
      ensures accessor != "" <==> key in leases
      ensures key in leases ==> accessor == leases[key]
      ensures accessor != "" ==> exists onDisk ::
                codec.DiskLeases(directory.target) == Some(onDisk) && key in onDisk && onDisk[key] == accessor
    {
      return if key in leases then leases[key] else "";
    }

    method Count() returns (n: nat)
      requires Valid()
      ensures codec.DiskLeases(directory.target).Some? && n == |codec.DiskLeases(directory.target).value|
    {
      return |leases|;
    }

    method Set(key: string, accessor: string, answers: Answers) returns (ok: bool)
      requires Valid() && answers.name !in directory.temporaries
      modifies this`leases, directory
      ensures Valid()
      ensures ok == (ValidOpaqueSecret(accessor, MAX_ACCESSOR_BYTES) && answers.Succeeds())
      ensures leases == if ok then old(leases)[key := accessor] else old(leases)
      ensures directory.target == if ok then Some(codec.Written(leases)) else old(directory.target)
      ensures ok || !answers.remove ==> directory.temporaries == old(directory.temporaries)
      ensures directory.AllOrNothing(old(directory.trace), old(directory.target), codec.Written(old(leases)[key := accessor]))
    {
      if !ValidOpaqueSecret(accessor, MAX_ACCESSOR_BYTES) {
        return false;
      }
      var existed := key in leases;
      var previous := if existed then leases[key] else "";
      leases := leases[key := accessor];
      ok := directory.Replace(codec.encode(leases), answers);
      if !ok {
        if existed {
          leases := leases[key := previous];
        } else {
          leases := leases - {key};
        }
        assert leases == old(leases);
      }
    }

    method Delete(key: string, answers: Answers) returns (ok: bool)
      requires Valid() && answers.name !in directory.temporaries
      modifies this`leases, directory
      ensures Valid()
      ensures ok == (key !in old(leases) || answers.Succeeds())
      ensures leases == if ok then old(leases) - {key} else old(leases)
      ensures directory.target ==
        if ok && key in old(leases) then Some(codec.Written(leases)) else old(directory.target)
      ensures ok || !answers.remove ==> directory.temporaries == old(directory.temporaries)
      ensures directory.AllOrNothing(old(directory.trace), old(directory.target), codec.Written(old(leases) - {key}))
    {
      if key !in leases {
        assert leases - {key} == leases;
        return true;
      }
      var previous := leases[key];
      leases := leases - {key};
      ok := directory.Replace(codec.encode(leases), answers);
      if !ok {
        leases := leases[key := previous];
        assert leases == old(leases);
      }
    }
  }
}
