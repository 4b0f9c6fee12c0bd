/** How one small file is replaced, file operation by file operation (prestarter/storage.go).  Seen from outside this
is the single step that `Devices` takes for granted. */
module SmallWrites {
  import opened Text
  import opened Devices
  import opened Directories

  /** The files of one directory. */
  type Folder = map<string, string>

  predicate IsTemporary(name: string) {
    HasPrefix(name, ".atomic-")
  }

  /** Apart from temporary files, `e` is `d`, or `d` with `path` replaced as a whole. */
  ghost predicate AsOneStep(d: Folder, e: Folder, path: string, data: string) {
    && (forall name | name != path && !IsTemporary(name) :: SameAt(d, e, name))
    && (SameAt(d, e, path) || (path in e && e[path] == data))
  }

  ghost predicate NoneLeft(d: Folder, e: Folder) {
    forall name | IsTemporary(name) :: SameAt(d, e, name)
  }

  /** A temporary file changes or goes. */
  lemma TemporaryStep(d: Folder, e: Folder, f: Folder, path: string, data: string, temporary: string)
    requires AsOneStep(d, e, path, data) && IsTemporary(temporary) && !IsTemporary(path)
    requires forall name | name != temporary :: SameAt(e, f, name)
    ensures AsOneStep(d, f, path, data)
  {
    assert SameAt(e, f, path);
    forall name | name != path && !IsTemporary(name)
      ensures SameAt(d, f, name)
    {
      assert SameAt(d, e, name) && SameAt(e, f, name);
    }
  }

  /** The finished file is renamed. */
  lemma RenameStep(d: Folder, e: Folder, f: Folder, path: string, data: string, temporary: string)
    requires AsOneStep(d, e, path, data) && IsTemporary(temporary) && !IsTemporary(path)
    requires f == (e - {temporary})[path := data]
    ensures AsOneStep(d, f, path, data)
  {
    forall name | name != path && !IsTemporary(name)
      ensures SameAt(d, f, name)
    {
      assert SameAt(d, e, name);
    }
  }

  lemma TemporaryGone(d: Folder, e: Folder, temporary: string)
    requires temporary !in d && forall name | name != temporary :: SameAt(d, e, name)
    ensures NoneLeft(d, e - {temporary}) && (temporary !in e ==> NoneLeft(d, e))
  {
    forall name | name != temporary
      ensures SameAt(d, e - {temporary}, name)
    {
      assert SameAt(d, e, name);
    }
  }

  /** One write to the temporary file. */
  method PutTemporary(dev: Device<Folder>, temporary: string, content: string, path: string, data: string,
                      ghost d: Folder)
      returns (ok: bool)
    requires dev.Valid() && IsTemporary(temporary) && !IsTemporary(path) && AsOneStep(d, dev.state, path, data)
    modifies dev
    ensures dev.Valid() && old(dev.trace) <= dev.trace && dev.missed == old(dev.missed)
    ensures forall k | |old(dev.trace)| <= k < |dev.trace| :: AsOneStep(d, dev.trace[k], path, data)
    ensures AsOneStep(d, dev.state, path, data)
    ensures dev.state == if ok then old(dev.state)[temporary := content] else old(dev.state)
    ensures dev.faults == old(dev.faults) + if ok then 0 else 1
  {
    hide AsOneStep;
    TemporaryStep(d, dev.state, dev.state[temporary := content], path, data, temporary);
    ok := dev.Step(dev.state[temporary := content]);
  }

  /** Creates, writes and flushes the temporary file; a write that breaks off leaves any part of the data. */
  method WriteTemporary(dev: Device<Folder>, temporary: string, path: string, data: string, ghost d: Folder)
      returns (ok: bool)
    requires dev.Valid() && IsTemporary(temporary) && !IsTemporary(path) && AsOneStep(d, dev.state, path, data)
    modifies dev
    ensures dev.Valid() && old(dev.trace) <= dev.trace && dev.missed == old(dev.missed)
    ensures forall k | |old(dev.trace)| <= k < |dev.trace| :: AsOneStep(d, dev.trace[k], path, data)
    ensures AsOneStep(d, dev.state, path, data)
    ensures forall name | name != temporary :: SameAt(old(dev.state), dev.state, name)
    ensures ok ==> temporary in dev.state && dev.state[temporary] == data
    ensures dev.faults == old(dev.faults) + if ok then 0 else 1
  {
    hide AsOneStep;
    ok := PutTemporary(dev, temporary, "", path, data, d);
    if !ok {
      return;
    }
    var partial: string := *;
    ok := PutTemporary(dev, temporary, partial, path, data, d);
    if !ok {
      return;
    }
    ok := PutTemporary(dev, temporary, data, path, data, d);
    if !ok {
      return;
    }
    ok := dev.Try();
  }

  /** `atomicSmallWrite`: a temporary file is written and flushed, then renamed. */
  method AtomicSmallWrite(dev: Device<Folder>, path: string, data: string) returns (ok: bool)
    requires dev.Valid() && !IsTemporary(path)
    modifies dev
    ensures dev.Valid() && old(dev.trace) <= dev.trace
    // Whatever fails, and wherever it is cut short, `path` holds the old content or the new.
    ensures forall k | |old(dev.trace)| <= k < |dev.trace| :: AsOneStep(old(dev.state), dev.trace[k], path, data)
    ensures AsOneStep(old(dev.state), dev.state, path, data)
    ensures ok ==> path in dev.state && dev.state[path] == data
    ensures dev.missed >= old(dev.missed) && (dev.missed == old(dev.missed) ==> NoneLeft(old(dev.state), dev.state))
    ensures dev.faults >= old(dev.faults) && (dev.faults == old(dev.faults) ==> ok)
  {
    ghost var d := dev.state;
    ok := dev.Try();
    var suffix: string := *;
    var temporary := ".atomic-" + suffix;
    if !ok {
      return;
    }
    if temporary in dev.state {
      dev.Fail();
      return false;
    }
    ok := WriteTemporary(dev, temporary, path, data, d);
    ghost var e := dev.state;
    TemporaryGone(d, e, temporary);
    if ok {
      hide AsOneStep;
      var next := (dev.state - {temporary})[path := dev.state[temporary]];
      RenameStep(d, e, next, path, data, temporary);
      ok := dev.Step(next);
    }
    if !ok {
      hide AsOneStep;
      var next := dev.state - {temporary};
      TemporaryStep(d, e, next, path, data, temporary);
      if temporary in dev.state {
        dev.Discard(next);
      }
      return;
    }
    ok := dev.Try();
  }
}
