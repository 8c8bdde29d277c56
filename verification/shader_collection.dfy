/**
 * The shader cache: a shader is named by its source file and an ordered
 * list of preprocessor defines; its key is the hash of the name followed
 * by the defines.  A cached key returns its module; otherwise the external
 * compiler is run on the source and the resulting module is cached.
 *
 * The hash and the compiler are parameters.  A compiler run is reduced to
 * its logged output and the module it yields, or none when the output file
 * cannot be read (which panics).
 */
module ShaderCollection {
  import opened Wrappers

  datatype CompilerOutput = CompilerOutput(stdout: string, stderr: string, shaderModule: Option<nat>)

  /** The key of a request: the hash of the name, then each define in order. */
  function Key(hash: seq<string> -> nat, name: string, defines: seq<string>): nat
  {
    hash([name] + defines)
  }

  /** The decimal digits of `n`, most significant first. */
  function Decimal(n: nat): (s: string)
    ensures |s| > 0 && forall i :: 0 <= i < |s| ==> '0' <= s[i] <= '9'
    decreases n
  {
    var d := [(('0' as int) + n % 10) as char];
    if n < 10 then d else Decimal(n / 10) + d
  }

  /** Reads a string of decimal digits back as a number. */
  function ParseDecimal(s: string): nat
    requires forall i :: 0 <= i < |s| ==> '0' <= s[i] <= '9'
  {
    if |s| == 0 then 0
    else 10 * ParseDecimal(s[..|s| - 1]) + (s[|s| - 1] as int - '0' as int)
  }

  /** Printing a key and reading it back gives the key, so distinct keys name distinct output files. */
  lemma {:induction false} DecimalRoundTrip(n: nat)
    ensures ParseDecimal(Decimal(n)) == n
    decreases n
  {
    if n >= 10 {
      DecimalRoundTrip(n / 10);
      var s := Decimal(n);
      assert s[..|s| - 1] == Decimal(n / 10);
    }
  }

  function DefineFlags(defines: seq<string>): (r: seq<string>)
    ensures |r| == |defines| && forall i :: 0 <= i < |r| ==> r[i] == "-D" + defines[i]
  {
    seq(|defines|, i requires 0 <= i < |defines| => "-D" + defines[i])
  }

  /**
   * The compiler's command line: the shell's run switch, the compiler, the
   * source under the shader directory, the output named by the key under
   * the temporary directory, then one `-D` flag per define in order.
   */
  function CompileArgs(name: string, key: nat, defines: seq<string>): (args: seq<string>)
    ensures |args| == 5 + |defines|
    ensures args[..5] == ["/C", "glslc.exe", "assets/shaders/" + name + ".glsl", "-o", "assets/spv/temp/" + Decimal(key) + ".spv"]
    ensures forall i :: 0 <= i < |defines| ==> args[5 + i] == "-D" + defines[i]
  {
    var head := ["/C", "glslc.exe", "assets/shaders/" + name + ".glsl", "-o", "assets/spv/temp/" + Decimal(key) + ".spv"];
    assert (head + DefineFlags(defines))[..5] == head;
    head + DefineFlags(defines)
  }

  datatype Created = Created(cache: map<nat, nat>, shaderModule: nat, compiled: Option<seq<string>>)

  /**
   * `create_shader`: a hit returns the cached module, leaves the cache as
   * it was and compiles nothing; a miss runs the compiler with
   * `CompileArgs`, ignores what it wrote to its error stream, and caches
   * the module under the key.  A miss whose output cannot be loaded panics
   * (`None`).
   */
  function CreateShader(cache: map<nat, nat>, hash: seq<string> -> nat, compiler: seq<string> -> CompilerOutput,
                        name: string, defines: seq<string>): (r: Option<Created>)
    ensures Key(hash, name, defines) in cache ==>
              r == Some(Created(cache, cache[Key(hash, name, defines)], None))
    ensures Key(hash, name, defines) !in cache ==>
              var args := CompileArgs(name, Key(hash, name, defines), defines);
              (r.None? <==> compiler(args).shaderModule.None?)
              && (r.Some? ==> r.value.compiled == Some(args)
                              && r.value.shaderModule == compiler(args).shaderModule.value
                              && r.value.cache == cache[Key(hash, name, defines) := r.value.shaderModule])
  {
    var key := Key(hash, name, defines);
    if key in cache then Some(Created(cache, cache[key], None))
    else
      var args := CompileArgs(name, key, defines);
      var out := compiler(args);
      match out.shaderModule
      case None => None
      case Some(m) => Some(Created(cache[key := m], m, Some(args)))
  }

  /** After any successful call, the same request is a hit that returns the same module and compiles nothing. */
  lemma SecondCallHits(cache: map<nat, nat>, hash: seq<string> -> nat, compiler: seq<string> -> CompilerOutput,
                       name: string, defines: seq<string>)
    requires CreateShader(cache, hash, compiler, name, defines).Some?
    ensures var first := CreateShader(cache, hash, compiler, name, defines).value;
            CreateShader(first.cache, hash, compiler, name, defines) == Some(Created(first.cache, first.shaderModule, None))
  {
  }

  /** The compiler's error stream never changes the outcome. */
  lemma StderrIgnored(cache: map<nat, nat>, hash: seq<string> -> nat, compiler: seq<string> -> CompilerOutput,
                      other: seq<string> -> CompilerOutput, name: string, defines: seq<string>)
    requires forall args :: compiler(args).shaderModule == other(args).shaderModule
    ensures CreateShader(cache, hash, compiler, name, defines) == CreateShader(cache, hash, other, name, defines)
  {
  }

  ghost predicate Injective(hash: seq<string> -> nat)
  {
    forall x, y :: hash(x) == hash(y) ==> x == y
  }

  /** With a collision-free hash, the same defines in another order are another cache entry. */
  lemma DefineOrderMatters(hash: seq<string> -> nat, name: string, a: string, b: string)
    requires Injective(hash) && a != b
    ensures Key(hash, name, [a, b]) != Key(hash, name, [b, a])
  {
    assert ([name] + [a, b])[1] != ([name] + [b, a])[1];
  }

  /** `order` lists the keys of `cache`, each once. */
  ghost predicate ListsKeys(order: seq<nat>, cache: map<nat, nat>)
  {
    (forall k :: k in order <==> k in cache) && forall i, j :: 0 <= i < j < |order| ==> order[i] != order[j]
  }

  /**
   * `destroy`: takes the cache, leaving it empty, and destroys each cached
   * module in the map's iteration order, one call per entry.
   */
  function Destroy(cache: map<nat, nat>, order: seq<nat>): (r: (map<nat, nat>, seq<nat>))
    requires ListsKeys(order, cache)
    ensures r.0 == map[]
    ensures |r.1| == |order| && forall i :: 0 <= i < |order| ==> r.1[i] == cache[order[i]]
    ensures forall k :: k in cache ==> exists i :: 0 <= i < |r.1| && order[i] == k && r.1[i] == cache[k]
  {
    var destroyed := seq(|order|, i requires 0 <= i < |order| => cache[order[i]]);
    assert forall k :: k in cache ==> exists i :: 0 <= i < |order| && order[i] == k by {
      forall k | k in cache
        ensures exists i :: 0 <= i < |order| && order[i] == k
      {
        assert k in order;
      }
    }
    (map[], destroyed)
  }
}
