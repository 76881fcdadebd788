/**
 * The implementation behind the pimpl `FileManager` of abstraction.cpp (`FileManager::Impl`).
 * It keeps a current directory and the list of files it has created, most recent last; the
 * file operations themselves are simulated and only that list changes.
 */
module Files {

  /** Where `std::find` stops: the first position holding `name`, or `|files|` when there is none. */
  function IndexOf(files: seq<string>, name: string): (k: nat)
    ensures k <= |files|
    ensures k < |files| ==> files[k] == name
    ensures k == |files| <==> name !in files
  {
    if files == [] then 0
    else if files[0] == name then 0
    else 1 + IndexOf(files[1..], name)
  }

  /** `IndexOf` finds the first occurrence: no earlier position holds `name`. */
  lemma {:induction false} IndexOfIsFirst(files: seq<string>, name: string, i: nat)
    requires i < IndexOf(files, name)
    ensures files[i] != name
  {
    if i > 0 {
      IndexOfIsFirst(files[1..], name, i - 1);
    }
  }

  /** The list with the first occurrence of `name` taken out, and unchanged when there is none. */
  function RemoveFirst(files: seq<string>, name: string): (r: seq<string>)
    ensures |r| == if name in files then |files| - 1 else |files|
  {
    if files == [] then []
    else if files[0] == name then files[1..]
    else [files[0]] + RemoveFirst(files[1..], name)
  }

  /** `RemoveFirst` is the `erase` at the position `std::find` returns, when it finds the name. */
  lemma {:induction false} RemoveFirstErasesFound(files: seq<string>, name: string, k: nat)
    requires k == IndexOf(files, name) && k < |files|
    ensures RemoveFirst(files, name) == files[..k] + files[k + 1..]
  {
    if k > 0 {
      var tail := files[1..];
      RemoveFirstErasesFound(tail, name, k - 1);
      assert files[..k] == [files[0]] + tail[..k - 1];
      assert files[k + 1..] == tail[k..];
    }
  }

  /** Deleting takes out exactly one copy of the name when the list holds one, and nothing else. */
  lemma {:induction false} RemoveFirstCount(files: seq<string>, name: string)
    ensures name in files ==> multiset(RemoveFirst(files, name)) == multiset(files) - multiset{name}
    ensures name in files ==> |RemoveFirst(files, name)| == |files| - 1
    ensures name !in files ==> RemoveFirst(files, name) == files
  {
    if files != [] {
      if files[0] == name {
        assert files == [files[0]] + files[1..];
      } else {
        RemoveFirstCount(files[1..], name);
        assert files == [files[0]] + files[1..];
      }
    }
  }

  /** Creating a file that is not yet in the list and deleting it again leaves the list as it was. */
  lemma {:induction false} CreateThenDelete(files: seq<string>, name: string)
    requires name !in files
    ensures RemoveFirst(files + [name], name) == files
  {
    if files != [] {
      CreateThenDelete(files[1..], name);
      assert (files + [name])[1..] == files[1..] + [name];
    }
  }

  /** `FileManager::Impl`. */
  class FileManager {
    var currentDirectory: string
    /** The files created and not deleted since, in order of creation. */
    var recentFiles: seq<string>

    constructor ()
      ensures currentDirectory == "." && recentFiles == []
    {
      currentDirectory := ".";
      recentFiles := [];
    }

    /** Records the new file last in the list. */
    method CreateFile(filename: string) returns (ok: bool)
      modifies this`recentFiles
      ensures ok && recentFiles == old(recentFiles) + [filename]
    {
      recentFiles := recentFiles + [filename];
      ok := true;
    }

    /** `std::find` over the list. */
    method Find(filename: string) returns (k: nat)
      ensures k == IndexOf(recentFiles, filename)
    {
      k := 0;
      while k < |recentFiles| && recentFiles[k] != filename
        invariant k <= |recentFiles|
        invariant IndexOf(recentFiles, filename) == k + IndexOf(recentFiles[k..], filename)
      {
        assert recentFiles[k..][1..] == recentFiles[k + 1..];
        k := k + 1;
      }
    }

    /** Takes the first occurrence of the name out of the list; succeeds whether or not there was one. */
    method DeleteFile(filename: string) returns (ok: bool)
      modifies this`recentFiles
      ensures ok && recentFiles == RemoveFirst(old(recentFiles), filename)
    {
      var k := Find(filename);
      if k < |recentFiles| {
        RemoveFirstErasesFound(recentFiles, filename, k);
        recentFiles := recentFiles[..k] + recentFiles[k + 1..];
      } else {
        RemoveFirstCount(recentFiles, filename);
      }
      ok := true;
    }

    /** Copying is simulated: it always succeeds and the list is not touched. */
    method CopyFile(source: string, destination: string) returns (ok: bool)
      ensures ok
    {
      ok := true;
    }

    /** Listing is simulated: the same three names whatever the directory. */
    method ListFiles(directory: string) returns (files: seq<string>)
      ensures files == ["file1.txt", "file2.txt", "file3.txt"]
    {
      files := ["file1.txt", "file2.txt", "file3.txt"];
    }

    /** A file exists exactly when it is in the list. */
    method FileExists(filename: string) returns (b: bool)
      ensures b <==> filename in recentFiles
    {
      var k := Find(filename);
      b := k != |recentFiles|;
    }

    /** The simulated size: a hundred bytes per character of the name. */
    method GetFileSize(filename: string) returns (size: nat)
      ensures size == 100 * |filename|
    {
      size := |filename| * 100;
    }
  }

  /**
   * The pimpl demonstration: two files are created, the first exists and is 800 bytes, the
   * listing gives its three names, and after the first is deleted only the second is left.
   */
  method TestFileManager() returns (found: bool, size: nat, listed: seq<string>, left: seq<string>)
    ensures found && size == 800
    ensures listed == ["file1.txt", "file2.txt", "file3.txt"]
    ensures left == ["data.txt"]
  {
    var fm := new FileManager();
    var _ := fm.CreateFile("test.txt");
    var _ := fm.CreateFile("data.txt");
    found := fm.FileExists("test.txt");
    size := fm.GetFileSize("test.txt");
    var _ := fm.CopyFile("test.txt", "backup.txt");
    listed := fm.ListFiles(".");
    var _ := fm.DeleteFile("test.txt");
    left := fm.recentFiles;
  }
}
