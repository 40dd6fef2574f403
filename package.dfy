/** The check both setup.py and build.py run first: every required file of the
    package must be a regular file in the working directory. */
module Package {
  import opened Seqs

  const RequiredFiles: seq<string> := [".my_custom_bashrc", "mycmd", "README.txt"]

  function IsMissing(isFile: string -> bool): string -> bool
  {
    (f: string) => !isFile(f)
  }

  /** `[f for f in required_files if not os.path.isfile(f)]` */
  function MissingFiles(isFile: string -> bool): (missing: seq<string>)
    ensures forall f :: f in missing <==> f in RequiredFiles && !isFile(f)
    ensures missing == [] <==> isFile(".my_custom_bashrc") && isFile("mycmd") && isFile("README.txt")
  {
    Filter(RequiredFiles, IsMissing(isFile))
  }

  /** The missing names come out in the order in which they are required. */
  lemma MissingFilesInOrder(isFile: string -> bool)
    ensures MissingFiles(isFile)
         == (if isFile(".my_custom_bashrc") then [] else [".my_custom_bashrc"])
          + (if isFile("mycmd") then [] else ["mycmd"])
          + (if isFile("README.txt") then [] else ["README.txt"])
  {
    var p := IsMissing(isFile);
    var x, y, z := ".my_custom_bashrc", "mycmd", "README.txt";
    calc {
      MissingFiles(isFile);
    == { assert RequiredFiles == ([x] + [y]) + [z]; }
      Filter(([x] + [y]) + [z], p);
    == { FilterAppend([x] + [y], [z], p); }
      Filter([x] + [y], p) + Filter([z], p);
    == { FilterAppend([x], [y], p); }
      (Filter([x], p) + Filter([y], p)) + Filter([z], p);
    == { FilterSingleton(x, p); FilterSingleton(y, p); FilterSingleton(z, p); }
      (if isFile(x) then [] else [x]) + (if isFile(y) then [] else [y]) + (if isFile(z) then [] else [z]);
    }
  }
}
