/**
 The set of declared variable names: the union of the keys of every parsed
 `.env*` file (`getDefinedEnvVars`). Finding the files, reading them and
 parsing them with dotenv happen outside the model; each file arrives here as
 the sequence of keys dotenv returned for it.
 */
module EnvStore {

  /** The keys of one file, as a set. */
  function KeySet(keys: seq<string>): (s: set<string>)
    ensures forall name :: name in s <==> name in keys
  {
    set i | 0 <= i < |keys| :: keys[i]
  }

  /** The union of the key sets of `files`. */
  function DeclaredNames(files: seq<seq<string>>): (names: set<string>)
    ensures forall name :: name in names <==> exists i :: 0 <= i < |files| && name in files[i]
  {
    if files == [] then {}
    else DeclaredNames(files[..|files| - 1]) + KeySet(files[|files| - 1])
  }

  /**
   `getDefinedEnvVars`: start from an empty set and `add` every key of every
   file, one file after the other.
   */
  method GetDefinedEnvVars(files: seq<seq<string>>) returns (envVars: set<string>)
    ensures envVars == DeclaredNames(files)
  {
    envVars := {};
    for i := 0 to |files|
      invariant envVars == DeclaredNames(files[..i])
    {
      var keys := files[i];
      for j := 0 to |keys|
        invariant envVars == DeclaredNames(files[..i]) + KeySet(keys[..j])
      {
        envVars := envVars + {keys[j]};
      }
      assert keys[..|keys|] == keys;
      assert files[..i + 1][..i] == files[..i];
    }
    assert files[..|files|] == files;
  }
}
