/** What several components share. */
module Common {
  datatype Option<+T> = None | Some(value: T)

  lemma SubsetSize<T>(a: set<T>, b: set<T>)
    requires a <= b
    ensures |a| <= |b| && (|a| == |b| ==> a == b)
  {
    assert b == a + (b - a);
    assert |b| == |a| + |b - a|;
  }

  const PGSIZE := 4096

  // Top of user-accessible memory.
  const UTOP := 0xef80_0000

  // Error codes (lab/inc/error.h), returned negated.
  const E_BAD_ENV := 2
  const E_INVAL := 3
  const E_NO_MEM := 4
  const E_NO_FREE_ENV := 5
  const E_IPC_NOT_RECV := 7
  const E_NO_DISK := 9
  const E_NOT_FOUND := 11
}
