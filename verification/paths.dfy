/** The filesystem paths the shim derives. `std::filesystem::path::operator/` is modelled
    for what the shim uses it for: a relative right operand without a root name on a POSIX
    system, where a separator is inserted exactly when the left operand has a file name,
    that is, when it is non-empty and does not already end in '/'. */
module Paths {
  import Text

  /** `p / q` for a relative `q`. */
  function Join(p: string, q: string): (r: string)
    ensures |r| >= |p| + |q| && r[..|p|] == p && r[|r| - |q|..] == q
    ensures r[|p|..|r| - |q|] == (if p == "" || p[|p| - 1] == '/' then "" else "/")
    ensures ':' !in p && ':' !in q ==> ':' !in r
  {
    if p == "" || p[|p| - 1] == '/' then p + q else p + "/" + q
  }

  /** Joining keeps every prefix of the left operand. */
  lemma JoinKeepsPrefix(x: string, p: string, q: string)
    requires |p| >= |x| && p[..|x|] == x
    ensures |Join(p, q)| >= |x| && Join(p, q)[..|x|] == x
  {
    var r := Join(p, q);
    assert r[..|x|] == r[..|p|][..|x|];
  }

  /** `$HOME/Library/Application Support/minecraft`. */
  function MinecraftDir(home: string): (r: string)
    ensures r != ""
    ensures |r| > |home| && r[..|home|] == home
    ensures ':' !in home ==> ':' !in r
  {
    NamesFreeOfColon();
    var library := Join(home, "Library");
    var support := Join(library, "Application Support");
    JoinKeepsPrefix(home, library, "Application Support");
    JoinKeepsPrefix(home, support, "minecraft");
    Join(support, "minecraft")
  }

  lemma NamesFreeOfColon()
    ensures ':' !in "Library" && ':' !in "Application Support" && ':' !in "minecraft" && ':' !in "shim"
  {
  }

  const FatArchive: string := "lwjglfat.jar"

  lemma FatArchiveNamesLwjgl()
    ensures Text.Contains(FatArchive, "lwjgl") && ':' !in FatArchive
  {
    assert "lwjgl" <= FatArchive;
  }

  /** The replacement library archive, `<minecraft>/shim/lwjglfat.jar`. */
  function ShimFat(minecraft: string): (r: string)
    ensures Text.Contains(r, "lwjgl")
    ensures ':' !in minecraft ==> ':' !in r
  {
    var directory := Join(minecraft, "shim");
    var r := Join(directory, FatArchive);
    FatArchiveNamesLwjgl();
    assert r == r[..|r| - |FatArchive|] + FatArchive + "";
    Text.ContainsInfix(r[..|r| - |FatArchive|], FatArchive, "", "lwjgl");
    NamesFreeOfColon();
    r
  }

  const NativesDirectory: string := "lwjglnatives"

  /** The replacement native-library directory, `<minecraft>/shim/lwjglnatives`. */
  function ShimNatives(minecraft: string): (r: string)
    ensures |r| > |minecraft| && r[..|minecraft|] == minecraft
    ensures |r| >= |NativesDirectory| && r[|r| - |NativesDirectory|..] == NativesDirectory
  {
    var directory := Join(minecraft, "shim");
    JoinKeepsPrefix(minecraft, directory, NativesDirectory);
    Join(directory, NativesDirectory)
  }

  const Binary: string := "java"

  /** The runtime binary inside an override directory, `<java_home>/bin/java`. */
  function JavaBinary(javaHome: string): (r: string)
    ensures javaHome != "" ==> |r| > |Binary|
    ensures |r| > |javaHome| && r[..|javaHome|] == javaHome
    ensures |r| >= |Binary| && r[|r| - |Binary|..] == Binary
  {
    var directory := Join(javaHome, "bin");
    JoinKeepsPrefix(javaHome, directory, Binary);
    Join(directory, Binary)
  }
}
