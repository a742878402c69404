/** What several modules need. */
module Common {

  datatype Option<+T> = None | Some(value: T)

  const NUL: char := '\0'

  /** Write s at `pos`. */
  method Write(dst: array<char>, pos: nat, s: string) returns (next: nat)
    requires pos + |s| <= dst.Length
    modifies dst
    ensures next == pos + |s| && dst[..next] == old(dst[..pos]) + s
  {
    for i := 0 to |s|
      invariant dst[..pos + i] == old(dst[..pos]) + s[..i]
    {
      dst[pos + i] := s[i];
    }
    next := pos + |s|;
  }
}
