/**
 * The contract every policy fulfils: the access-mode bit flags, and the
 * outcome of `validate` (the identifier the caller should use, or the
 * message of the PolicyException that rejects it).
 */
module PolicyInterface {

  /** Access modes are bit sets held in a PHP (64-bit) integer. */
  type Mode = bv64

  const ModeRead: Mode := 1
  const ModeWrite: Mode := 2

  /**
   * `granted` covers `requested` when every bit of `requested` is set in
   * `granted`: the test `(granted & requested) === requested` of the source.
   */
  predicate Covers(granted: Mode, requested: Mode) {
    granted & requested == requested
  }

  /** The two flags are distinct single bits; together they make 3. */
  lemma ModeFlags()
    ensures ModeRead & ModeWrite == 0
    ensures ModeRead | ModeWrite == 3
    ensures ModeRead != ModeWrite
  {
  }

  /** Covering is a preorder: a request inside a registration inside a policy's support is inside the support. */
  lemma CoversPreorder(a: Mode, b: Mode, c: Mode)
    ensures Covers(a, a)
    ensures Covers(a, b) && Covers(b, c) ==> Covers(a, c)
  {
  }

  /** Read-only covers only reads; write-only covers only writes; read|write covers both. */
  lemma CoversFlags()
    ensures Covers(ModeRead, ModeRead) && !Covers(ModeRead, ModeWrite) && !Covers(ModeRead, ModeRead | ModeWrite)
    ensures Covers(ModeWrite, ModeWrite) && !Covers(ModeWrite, ModeRead) && !Covers(ModeWrite, ModeRead | ModeWrite)
    ensures Covers(ModeRead | ModeWrite, ModeRead) && Covers(ModeRead | ModeWrite, ModeWrite)
  {
  }

  /**
   * A registration inside read-only support (a policy supporting
   * MODE_READ, or MODE_READ | MODE_READ) never covers a request that asks
   * to write.
   */
  lemma ReadOnlyRefusesWrite(registered: Mode, requested: Mode)
    requires Covers(ModeRead, registered)
    requires requested & ModeWrite != 0
    ensures !Covers(registered, requested)
  {
  }

  /** The result of `validate`: accepted with the identifier to use, or rejected with a reason. */
  datatype Outcome = Accepted(id: string) | Rejected(message: string)
}
