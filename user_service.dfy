/** The profile update: a by-id update of one user row that writes only the keys its body carries. */
module Users {
  import opened Wrappers
  import opened Prisma
  import opened Exceptions

  /** The body of a profile edit: each name may be absent. */
  datatype EditUserBody = EditUserBody(firstName: Option<string>, lastName: Option<string>)

  /** The row update writes, `{ ...body }` over the stored row. */
  function PatchUser(u: User, body: EditUserBody): User {
    u.(firstName := if body.firstName.Some? then body.firstName else u.firstName,
       lastName := if body.lastName.Some? then body.lastName else u.lastName)
  }

  /** A profile edit writes the names the body carries, keeps the others, and never touches id, email or digest. */
  lemma PatchUserWritesPresentKeys(u: User, body: EditUserBody)
    ensures PatchUser(u, body).id == u.id && PatchUser(u, body).email == u.email && PatchUser(u, body).hash == u.hash
    ensures body.firstName.Some? ==> PatchUser(u, body).firstName == body.firstName
    ensures body.firstName.None? ==> PatchUser(u, body).firstName == u.firstName
    ensures body.lastName.Some? ==> PatchUser(u, body).lastName == body.lastName
    ensures body.lastName.None? ==> PatchUser(u, body).lastName == u.lastName
    ensures PatchUser(PatchUser(u, body), body) == PatchUser(u, body)
  {
  }

  class UserService {
    const prisma: PrismaService

    constructor(prisma: PrismaService)
      ensures this.prisma == prisma
    {
      this.prisma := prisma;
    }

    /** `update({ where: { id }, data: { ...body } })`; a missing row makes the client throw. */
    method EditUser(id: int, body: EditUserBody) returns (r: Result<User, Failure>)
      requires prisma.Valid()
      modifies prisma`users
      ensures prisma.Valid()
      ensures id !in old(prisma.users) ==>
        r == Err(Thrown(KnownRequestError(RecordNotFound))) && prisma.users == old(prisma.users)
      ensures id in old(prisma.users) ==>
        && r == Ok(PatchUser(old(prisma.users[id]), body))
        && prisma.users == old(prisma.users)[id := r.value]
        && prisma.users[id] == r.value
      ensures forall other :: other != id && other in old(prisma.users) ==> other in prisma.users && prisma.users[other] == old(prisma.users[other])
      ensures prisma.users.Keys == old(prisma.users.Keys)
    {
      if id !in prisma.users {
        return Err(Thrown(KnownRequestError(RecordNotFound)));
      }
      var user := PatchUser(prisma.users[id], body);
      prisma.users := prisma.users[id := user];
      r := Ok(user);
    }
  }
}
