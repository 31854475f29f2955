/** Path buffers as the C code fills them: copying, strdup, and ms_strappend
    with its two terminators. */
module PathBuffer {
  import opened Base

  /** strncpy of all of `src` at offset `at`. */
  method CopyInto(dst: array<char>, at: nat, src: CString)
    requires at + |src| <= dst.Length
    modifies dst
    ensures dst[at..at + |src|] == src
    ensures forall i :: 0 <= i < at || at + |src| <= i < dst.Length ==> dst[i] == old(dst[i])
  {
    for k := 0 to |src|
      invariant dst[at..at + k] == src[..k]
      invariant forall i :: 0 <= i < at || at + k <= i < dst.Length ==> dst[i] == old(dst[i])
    {
      dst[at + k] := src[k];
    }
    assert src[..|src|] == src;
  }

  /** strdup of a buffer: the characters up to the first terminator. */
  method StrDup(buf: array<char>, ghost text: CString) returns (s: CString)
    requires |text| < buf.Length && buf[..|text|] == text && buf[|text|] == '\0'
    ensures s == text
  {
    var n := 0;
    while buf[n] != '\0'
      invariant n <= |text|
      decreases |text| - n
    {
      assert buf[..|text|][n] == buf[n];
      n := n + 1;
    }
    s := buf[..n];
  }

  /** Where ms_strappend stores its own terminator: at the length of the joined
      path, also when snprintf has cut the text short. */
  function TerminatorAt(dir: CString, name: CString): nat {
    |Join(dir, name)|
  }

  /** ms_strappend with pattern "%s/%s" and size MS_FILE_PATH_LEN_MAX: a refused
      path leaves the buffer alone; an accepted one is written with its
      terminator, and a second terminator at the length of the joined path. */
  method AppendInto(res: array<char>, dir: CString, name: CString) returns (err: int)
    requires res.Length >= MS_FILE_PATH_LEN_MAX
    requires StrAppend(dir, name).Ok? ==> TerminatorAt(dir, name) < res.Length
    modifies res
    ensures var text := StrAppend(dir, name);
            match text
            case Err(code) => err == code && res[..] == old(res[..])
            case Ok(value) =>
              && err == MS_ERR_NONE
              && |value| <= TerminatorAt(dir, name) && res[..|value|] == value && res[|value|] == '\0'
              && res[TerminatorAt(dir, name)] == '\0'
              && forall i :: |value| < i < res.Length && i != TerminatorAt(dir, name) ==> res[i] == old(res[i])
  {
    var real_size := MS_FILE_PATH_LEN_MAX - 1;
    if real_size < |dir| + |name| {
      return MS_ERR_OUT_OF_RANGE;
    }
    var full := Join(dir, name);
    var text := StrAppend(dir, name).value;
    CopyInto(res, 0, text);
    res[|text|] := '\0';
    assert res[..|text|] == text;
    res[|full|] := '\0';
    assert |text| == |full| || res[..|text|] == text;
    err := MS_ERR_NONE;
  }

  /** The buffers of MS_FILE_PATH_LEN_MAX cells take that store exactly if the
      joined path has at most 4095 characters; one of 4096 is accepted, too. */
  lemma StoreInsideIff(dir: CString, name: CString)
    requires StrAppend(dir, name).Ok?
    ensures TerminatorAt(dir, name) < MS_FILE_PATH_LEN_MAX <==> |Join(dir, name)| <= 4095
    ensures TerminatorAt(dir, name) <= MS_FILE_PATH_LEN_MAX
  {
  }

  /** A name of `n` letters. */
  function Letters(n: nat): (name: CString)
    ensures |name| == n && '/' !in name && forall i {:trigger name[i]} :: 0 <= i < n ==> name[i] == 'a'
  {
    var name := seq(n, _ => 'a');
    assert forall i :: 0 <= i < |name| ==> name[i] != '\0';
    name
  }

  /** The longest name a directory entry can have. */
  const NAME_MAX: nat := 255

  /** The directory `levels` below `dir` on a path of such names. */
  function Nested(dir: CString, levels: nat): (path: CString)
    ensures |path| == |dir| + levels * (NAME_MAX + 1) && dir <= path
  {
    if levels == 0 then dir else Join(Nested(dir, levels - 1), Letters(NAME_MAX))
  }

  /** A path below the internal storage whose last name has `n` letters. */
  function DeepPath(n: nat): (path: CString)
    ensures |path| == 3851 + n && MS_ROOT_PATH_INTERNAL <= path
  {
    Join(Nested(MS_ROOT_PATH_INTERNAL, 15), Letters(n))
  }

  /** There is such a path: the store then goes one cell beyond the buffer. */
  lemma StoreOutside()
    ensures StrAppend(DeepPath(243), "b").Ok? && TerminatorAt(DeepPath(243), "b") == MS_FILE_PATH_LEN_MAX
  {
    assert |Join(DeepPath(243), "b")| == 4096;
  }
}
