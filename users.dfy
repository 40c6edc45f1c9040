/** UsersService: plain operations over the users table. */
module Users {
  import opened Results
  import opened Entities
  import opened Repositories

  const UserNotFound := "User not found"

  /** The users table's unique column. */
  function EmailOf(u: User): string
  {
    u.email
  }

  /** No two users share an email (what the unique index on `email` guarantees). */
  ghost predicate UniqueEmails(users: map<int, User>)
  {
    UniqueBy(users, EmailOf)
  }

  predicate EmailTaken(users: map<int, User>, email: string)
  {
    KeyTaken(users, EmailOf, email)
  }

  class UsersService {
    const repo: Repository<User>

    ghost predicate Valid()
      reads repo
    {
      repo.Valid() && repo.notFoundMsg == UserNotFound
    }

    constructor ()
      ensures Valid() && fresh(repo) && repo.rows == map[]
    {
      repo := new Repository(UserNotFound);
    }

    /** `create(dto)`: only builds the user entity; nothing is stored and no email is checked. */
    method Create(dto: User) returns (u: User)
      ensures u == dto
      ensures repo.rows == old(repo.rows)
    {
      u := repo.Create(dto);
    }

    /** `findOne(where)`: some matching user, or null. */
    method FindOne(where: (int, User) -> bool) returns (r: Option<Row<User>>)
      ensures r.None? <==> !repo.Matches(where)
      ensures r.Some? ==> r.value.id in repo.rows && repo.rows[r.value.id] == r.value.entity
      ensures r.Some? ==> where(r.value.id, r.value.entity)
    {
      r := repo.FindOne(where);
    }

    /** `findOneById(id)`: the stored user, or NotFound("User not found"). */
    method FindOneById(id: int) returns (r: Result<Row<User>>)
      requires Valid()
      ensures id in repo.rows ==> r == Ok(Row(id, repo.rows[id]))
      ensures id !in repo.rows ==> r == Err(NotFound(UserNotFound))
    {
      r := repo.FindOneOrThrow((k, u) => k == id);
    }

    /**
     * `update(id, dto)`: NotFound("User not found") for an unknown id;
     * otherwise the keys of the patch are merged into that row only. No email
     * check is made, so emails stay unique exactly when the patch carries no
     * email or one no other user has.
     */
    method Update(id: int, patch: UserPatch) returns (r: Result<Row<User>>)
      requires Valid()
      modifies repo
      ensures Valid()
      ensures id !in old(repo.rows) ==> r == Err(NotFound(UserNotFound)) && repo.rows == old(repo.rows)
      ensures id in old(repo.rows) ==>
        && r == Ok(Row(id, AssignUser(old(repo.rows)[id], patch)))
        && repo.rows == old(repo.rows)[id := r.value.entity]
      ensures UniqueEmails(old(repo.rows)) && r.Ok? ==>
        (UniqueEmails(repo.rows) <==> patch.email.None? || !EmailTaken(old(repo.rows) - {id}, patch.email.value))
    {
      r := repo.FindOneAndUpdate((k, u) => k == id, patch, AssignUser);
      if r.Err? {
        return Err(NotFound(UserNotFound));
      }
      if UniqueEmails(old(repo.rows)) {
        UpdateKeepsUniqueBy(old(repo.rows), EmailOf, id, r.value.entity);
        if patch.email.None? {
          SameKeyKeepsUniqueBy(old(repo.rows), EmailOf, id, r.value.entity);
        }
      }
    }

    /** `remove(id)`: deletes the row with that id and no other. */
    method Remove(id: int)
      requires Valid()
      modifies repo
      ensures Valid()
      ensures repo.rows == old(repo.rows) - {id}
    {
      repo.Delete(id);
    }

    /**
     * `saveOne(user)`: stores the user, under a new id when it has none. No
     * email check is made: a new user keeps emails unique exactly when its
     * email is not taken.
     */
    method SaveOne(id: Option<int>, u: User) returns (saved: Row<User>)
      requires Valid()
      modifies repo
      ensures Valid()
      ensures saved.entity == u
      ensures id.None? ==> saved.id !in old(repo.rows)
      ensures id.Some? ==> saved.id == id.value
      ensures repo.rows == old(repo.rows)[saved.id := u]
      ensures UniqueEmails(old(repo.rows)) && id.None? ==>
        (UniqueEmails(repo.rows) <==> !EmailTaken(old(repo.rows), u.email))
    {
      saved := repo.SaveOne(id, u);
      if UniqueEmails(old(repo.rows)) && id.None? {
        InsertKeepsUniqueBy(old(repo.rows), EmailOf, saved.id, u);
      }
    }
  }
}
