/** The guest shim's join of a relative path to the working directory (patch 0001). */
module CwdJoin {
  import opened Common
  import opened GuestPath

  /** What `os_wasi_resolve_path` returns: its argument, the buffer, or null with ENAMETOOLONG. */
  datatype Resolved = Unchanged | InBuffer | TooLong

  /**
   `os_wasi_resolve_path`. A missing `path` is the null pointer, a missing `cwd` a failed
   getcwd; strings exclude their terminator. `snprintf` writes at most `buffer.Length - 1`
   bytes and a terminator, and reports the untruncated length.
   */
  method ResolvePath(path: Option<string>, cwd: Option<string>, buffer: array<char>) returns (r: Resolved)
    modifies buffer
    ensures r.Unchanged? <==> path.None? || "/" <= path.value || buffer.Length == 0 || cwd.None?
    ensures r.Unchanged? ==> buffer[..] == old(buffer[..])
    ensures r.TooLong? <==> !r.Unchanged? && |cwd.value| + 1 + |path.value| >= buffer.Length
    ensures r.InBuffer? ==>
              var text := cwd.value + "/" + path.value;
              |text| < buffer.Length && buffer[..|text|] == text && buffer[|text|] == '\0'
  {
    if path.None? || StartsWithSlash(path.value) || buffer.Length == 0 || cwd.None? {
      return Unchanged;
    }
    var text := cwd.value + "/" + path.value;
    var written := if |text| < buffer.Length then |text| else buffer.Length - 1;
    for i := 0 to written
      invariant buffer[..i] == text[..i]
    {
      buffer[i] := text[i];
    }
    buffer[written] := '\0';
    assert buffer[..written] == text[..written];
    r := if |text| >= buffer.Length then TooLong else InBuffer;
  }

  /** The C string held in a buffer: everything before the first terminator. */
  function CString(bytes: string): (s: string)
  {
    if bytes == "" || bytes[0] == '\0' then "" else [bytes[0]] + CString(bytes[1..])
  }

  lemma {:induction false} CStringOf(text: string, tail: string)
    requires '\0' !in text && tail != "" && tail[0] == '\0'
    ensures CString(text + tail) == text
  {
    if text == "" {
      assert text + tail == tail;
    } else {
      CStringOf(text[1..], tail);
      assert (text + tail)[1..] == text[1..] + tail;
    }
  }

  /**
   Joining in the guest and normalizing in the host is walking the relative path from the
   normalized working directory, errors included: for every buffer the shim may have filled.
   */
  lemma JoinThenNormalizeIsWalk(path: string, cwd: string, buffer: string)
    requires Normalize(cwd).Ok?
    requires '\0' !in path && '\0' !in cwd
    requires var text := cwd + "/" + path; |text| < |buffer| && buffer[..|text|] == text && buffer[|text|] == '\0'
    ensures Normalize(CString(buffer)) ==
            match Walk(Parse(cwd).value.names, Split(path))
            case Ok(names) => Ok(Render(Normal(Parse(cwd).value.absolute, names)))
            case Err(e) => Err(e)
  {
    var text := cwd + "/" + path;
    assert buffer == text + buffer[|text|..];
    CStringOf(text, buffer[|text|..]);
    ParseAppended(cwd, path);
  }
}
