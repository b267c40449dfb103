/**
 * crbase::ScopedTempDir (win/crbase/files/scoped_temp_dir.cc): an owner of
 * at most one directory, held as path_ (empty when none). Every operation
 * first looks at path_ and then sets or clears it.
 *
 * The file-system calls it makes (CreateNewTempDirectory, CreateDirectory,
 * CreateTemporaryDirInDir, DirectoryExists, DeleteFile) are not part of
 * this model: what each answers is a parameter of the operation that
 * makes it.
 */
module ScopedTempDirs {
  import opened Wrappers

  /** A FilePath, as the characters of its value. */
  type Path = string

  class ScopedTempDir {
    var path: Path

    /** ScopedTempDir(): holds no directory. */
    constructor ()
      ensures path == []
    {
      path := [];
    }

    /**
     * CreateUniqueTempDir: refused while a directory is held; otherwise
     * holds the directory CreateNewTempDirectory made (`made`), and
     * fails, holding nothing, when it made none.
     */
    method CreateUniqueTempDir(made: Option<Path>) returns (ok: bool)
      modifies this
      ensures old(path) != [] ==> !ok && path == old(path)
      ensures old(path) == [] ==> ok == made.Some? && path == (if ok then made.value else [])
    {
      if path != [] {
        return false;
      }
      match made
      case None =>
        return false;
      case Some(p) =>
        path := p;
        return true;
    }

    /**
     * CreateUniqueTempDirUnderPath: the same guard; then fails if the base
     * directory cannot be created (`baseCreated`), and otherwise holds the
     * directory CreateTemporaryDirInDir made under it, if any.
     */
    method CreateUniqueTempDirUnderPath(basePath: Path, baseCreated: bool, made: Option<Path>)
        returns (ok: bool)
      modifies this
      ensures old(path) != [] ==> !ok && path == old(path)
      ensures old(path) == [] && !baseCreated ==> !ok && path == []
      ensures old(path) == [] && baseCreated ==> ok == made.Some? && path == (if ok then made.value else [])
    {
      if path != [] {
        return false;
      }
      if !baseCreated {
        return false;
      }
      match made
      case None =>
        return false;
      case Some(p) =>
        path := p;
        return true;
    }

    /**
     * Set: refused while a directory is held, and when the directory
     * neither exists nor can be created; otherwise takes ownership of it.
     * CreateDirectory is only asked when the directory does not exist.
     */
    method Set(newPath: Path, dirExists: bool, created: bool) returns (ok: bool)
      modifies this
      ensures ok <==> old(path) == [] && (dirExists || created)
      ensures path == if ok then newPath else old(path)
    {
      if path != [] {
        return false;
      }
      if !dirExists && !created {
        return false;
      }
      path := newPath;
      return true;
    }

    /**
     * Delete: false when nothing is held; otherwise what DeleteFile
     * answered (`deleted`), and the path is cleared only when it succeeded.
     */
    method Delete(deleted: bool) returns (ok: bool)
      modifies this
      ensures ok <==> old(path) != [] && deleted
      ensures path == if ok then [] else old(path)
    {
      if path == [] {
        return false;
      }
      var ret := deleted;
      if ret {
        path := [];
      }
      return ret;
    }

    /** Take: gives up ownership, returning the held path (empty if none). */
    method Take() returns (taken: Path)
      modifies this
      ensures taken == old(path) && path == []
    {
      taken := path;
      path := [];
    }

    /** IsValid: a directory is held and DirectoryExists says it still exists (`dirExists`). */
    function IsValid(dirExists: bool): (r: bool)
      reads this
      ensures r ==> path != []
    {
      path != [] && dirExists
    }

    /**
     * ~ScopedTempDir: tries Delete only while a directory is held
     * (`attempted`); a failed deletion is only logged.
     */
    method Destroy(deleted: bool) returns (attempted: bool)
      modifies this
      ensures attempted <==> old(path) != []
      ensures path == if attempted && deleted then [] else old(path)
    {
      attempted := path != [];
      if attempted {
        var ok := Delete(deleted);
      }
    }
  }
}
