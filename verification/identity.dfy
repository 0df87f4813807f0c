/** Who a caller is, as the rest of the system sees it, and the cryptographic
    primitives the core consumes without specifying them. */
module Identity {
  import opened Wrappers

  /** The user roles of the `users` table; their string values are what a token carries. */
  datatype Role = Admin | Client | Staff

  function RoleName(r: Role): string {
    match r
    case Admin => "admin"
    case Client => "client"
    case Staff => "staff"
  }

  /** A verified token's payload, `{ userId, role }`. The role is whatever the token
      carries, so it is a string that may be absent. */
  datatype Payload = Payload(userId: int, role: Option<string>)

  /** Password hashing and token signing are foreign code; the model takes them as
      parameters. `verify` yields None where the library throws. */
  datatype Crypto = Crypto(
    hash: string -> string,
    compare: (string, string) -> bool,
    sign: Payload -> string,
    verify: string -> Option<Payload>)

  /** A password matches exactly its own hash (salting idealised away). */
  ghost predicate PasswordsSound(c: Crypto) {
    forall p, h :: c.compare(p, h) <==> h == c.hash(p)
  }

  /** A signed payload verifies to itself. */
  ghost predicate TokensSound(c: Crypto) {
    forall x :: c.verify(c.sign(x)) == Some(x)
  }

  /** The behaviour the core expects of the primitives. */
  ghost predicate Sound(c: Crypto) {
    PasswordsSound(c) && TokensSound(c)
  }
}
