/** The files under the audit root, as far as the store uses them. Any step may fail; what it leaves is stated here.
    A process that dies at a step leaves what a run leaves in which that step and every later one fail. */
module Disk {
  import opened Text

  datatype CreateResult = Created | AlreadyExists | CreateFailed

  class Disk {
    var files: map<Str, Bytes>
    /** How many bytes of a file a successful sync has covered: a power cut keeps at least those. */
    var synced: map<Str, nat>
    /** How many steps failed so far, but for those whose failure is ignored. */
    ghost var failures: nat

    predicate Valid()
      reads this`files, this`synced
    {
      synced.Keys == files.Keys && forall path | path in files :: synced[path] <= |files[path]|
    }

    /** A test hook, a chmod, a close or a directory sync: it may throw, and leaves the files alone. */
    method Step() returns (ok: bool)
      modifies this`failures
      ensures failures == if ok then old(failures) else old(failures) + 1
    {
      ok := *;
      if !ok {
        failures := failures + 1;
      }
    }

    /** Open with O_CREAT and O_EXCL. That a file has the name is no failure of the disk. */
    method Create(path: Str) returns (r: CreateResult)
      requires Valid()
      modifies this
      ensures Valid() && failures == if r == CreateFailed then old(failures) + 1 else old(failures)
      ensures r == AlreadyExists ==> path in old(files)
      ensures r == Created ==>
        path !in old(files) && files == old(files)[path := []] && synced == old(synced)[path := 0]
      ensures r != Created ==> files == old(files) && synced == old(synced)
    {
      if * {
        failures := failures + 1;
        return CreateFailed;
      }
      if path in files {
        return AlreadyExists;
      }
      files, synced := files[path := []], synced[path := 0];
      return Created;
    }

    /** One write at the end of the file: some prefix of the data lands, and the call says how much or fails. To write
        nothing of something is a failure too. */
    method Append(path: Str, data: Bytes) returns (written: Option<nat>, ghost landed: nat)
      requires Valid() && path in files && data != []
      modifies this
      ensures Valid() && landed <= |data| && synced == old(synced)
      ensures files == old(files)[path := old(files)[path] + data[..landed]]
      ensures written.Some? ==> written.value == landed
      ensures failures == if written.None? || written.value == 0 then old(failures) + 1 else old(failures)
    {
      var n: nat :| n <= |data|;
      files := files[path := files[path] + data[..n]];
      if * {
        failures := failures + 1;
        return None, n;
      }
      if n == 0 {
        failures := failures + 1;
      }
      return Some(n), n;
    }

    method Sync(path: Str) returns (ok: bool)
      requires Valid() && path in files
      modifies this`synced, this`failures
      ensures Valid() && failures == if ok then old(failures) else old(failures) + 1
      ensures synced == if ok then old(synced)[path := |files[path]|] else old(synced)
    {
      ok := *;
      if ok {
        synced := synced[path := |files[path]|];
      } else {
        failures := failures + 1;
      }
    }

    /** Rename: all or nothing. */
    method Rename(from: Str, to: Str) returns (ok: bool)
      requires Valid() && from in files && from != to
      modifies this
      ensures Valid() && failures == if ok then old(failures) else old(failures) + 1
      ensures files == if ok then (old(files) - {from})[to := old(files)[from]] else old(files)
      ensures synced == if ok then (old(synced) - {from})[to := old(synced)[from]] else old(synced)
    {
      ok := *;
      if ok {
        files, synced := (files - {from})[to := files[from]], (synced - {from})[to := synced[from]];
      } else {
        failures := failures + 1;
      }
    }

    /** Unlink, its failure ignored. */
    method Unlink(path: Str)
      requires Valid()
      modifies this`files, this`synced
      ensures Valid()
      ensures (files == old(files) && synced == old(synced)) || (files == old(files) - {path} && synced == old(synced) - {path})
    {
      if * {
        files, synced := files - {path}, synced - {path};
      }
    }
  }
}
