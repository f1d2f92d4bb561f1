/**
 * shouldSkip: hidden files and directories and node_modules are never
 * listed, searched or read. Only the last element of a path is judged.
 */
module Skip {
  import opened FilePath

  /** A name the server hides: it starts with "." or is node_modules. */
  predicate SkipName(n: string) {
    HasPrefix(n, ".") || n == "node_modules"
  }

  /** shouldSkip. */
  predicate ShouldSkip(path: string) {
    SkipName(Base(path))
  }

  /** Only the last element counts: a child is skipped iff its own name is hidden. */
  lemma ShouldSkipChild(dir: string, n: string)
    requires IsName(n)
    ensures ShouldSkip(dir + "/" + n) <==> HasPrefix(n, ".") || n == "node_modules"
  {
    BaseOfChild(dir, n);
  }

  /** A bare name is skipped iff it is hidden or node_modules. */
  lemma ShouldSkipName(n: string)
    requires IsName(n)
    ensures ShouldSkip(n) <==> HasPrefix(n, ".") || n == "node_modules"
  {
    BaseOfName(n);
  }

  lemma DotGitIsSkipped()
    ensures ShouldSkip(".git")
  {
    assert IsName(".git");
    BaseOfName(".git");
    assert ".git"[..1] == ".";
  }

  lemma NodeModulesSuffixIsNotSkipped()
    ensures !ShouldSkip("my.node_modules")
  {
    assert IsName("my.node_modules");
    BaseOfName("my.node_modules");
    assert "my.node_modules"[..1] == "m";
  }

  /** Inside a hidden directory the file itself is judged: .git/config is not skipped. */
  lemma InsideDotGitIsNotSkipped()
    ensures !ShouldSkip(".git/config")
  {
    assert IsName("config");
    BaseOfChild(".git", "config");
    assert ".git" + "/" + "config" == ".git/config";
    assert "config"[..1] == "c";
  }

  lemma NodeModulesIsSkipped()
    ensures ShouldSkip("src/node_modules")
  {
    assert IsName("node_modules");
    BaseOfChild("src", "node_modules");
    assert "src" + "/" + "node_modules" == "src/node_modules";
  }
}
