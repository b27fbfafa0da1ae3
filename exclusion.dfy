/** The fixed exclusion rules of the tree walk (generate_structure.py, lines 15-16 and 33-34). */
module Exclusion {
  import opened Text

  /** `EXCLUDE_DIRS`: directory names that are never entered. */
  const ExcludeDirs: set<string> := {".git", ".github", "__pycache__", "venv", ".venv", ".idea"}

  /** `EXCLUDE_SUFFIXES`: file-name endings that are never listed. */
  const ExcludeSuffixes: set<string> := {".pyc", ".log", ".tmp", ".bak"}

  /** `is_skip_dir(d)`: membership of the name in `EXCLUDE_DIRS`. */
  predicate IsSkipDir(d: string) {
    d in ExcludeDirs
  }

  /** `is_skip_file(p)`: the file name ends with some excluded suffix, compared case-sensitively. */
  predicate IsSkipFile(name: string) {
    exists x | x in ExcludeSuffixes :: EndsWith(name, x)
  }

  /** A directory is skipped exactly when its name is one of the six excluded names. */
  lemma SkipDirMeaning(d: string)
    ensures IsSkipDir(d) <==> d == ".git" || d == ".github" || d == "__pycache__" || d == "venv" || d == ".venv" || d == ".idea"
  {
  }

  /** A file is skipped exactly when its name ends with one of the four excluded suffixes. */
  lemma SkipFileMeaning(name: string)
    ensures IsSkipFile(name) <==>
      EndsWith(name, ".pyc") || EndsWith(name, ".log") || EndsWith(name, ".tmp") || EndsWith(name, ".bak")
  {
  }

  /** The suffix test is on the exact characters: upper case or a later extension escapes it. */
  lemma SkipFileIsCaseSensitive()
    ensures IsSkipFile("home-assistant.log") && IsSkipFile("cache.pyc")
    ensures !IsSkipFile("HOME-ASSISTANT.LOG") && !IsSkipFile("backup.bak.yaml")
  {
    SkipFileMeaning("home-assistant.log");
    SkipFileMeaning("cache.pyc");
    SkipFileMeaning("HOME-ASSISTANT.LOG");
    SkipFileMeaning("backup.bak.yaml");
    assert EndsWith("home-assistant.log", ".log");
    assert EndsWith("cache.pyc", ".pyc");
  }
}
