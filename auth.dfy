/**
 * AuthService: signup, credential check with token issue, and self-update.
 * bcrypt's hash and compare and the JWT signer are foreign code; the service
 * holds them as functions it is given, and the random salt is a parameter.
 */
module Auth {
  import opened Results
  import opened Entities
  import opened Repositories
  import opened Users

  const UserExists := "User already exists"
  const InvalidCredentials := "Invalid credentials"

  /** Seconds a token lives when `createJwt` is given no time: `60 * 60 * 24`. */
  const DefaultExpiry := 60 * 60 * 24

  /** The token's payload, `{ id, userType }`. */
  datatype JwtPayload = JwtPayload(id: int, userType: UserType)

  /** A user as handed back to the caller: every field but the password. */
  datatype PublicUser = PublicUser(id: int, name: string, email: string, userType: UserType)

  datatype Login = Login(user: PublicUser, token: string)

  datatype SignupDto = SignupDto(name: string, email: string, password: string, userType: UserType)

  /** `const { password, ...rest } = user`: the row without its password. */
  function WithoutPassword(row: Row<User>): (p: PublicUser)
    ensures p.id == row.id && p.name == row.entity.name
    ensures p.email == row.entity.email && p.userType == row.entity.userType
  {
    PublicUser(row.id, row.entity.name, row.entity.email, row.entity.userType)
  }

  /** `time || 60 * 60 * 24`: a missing time and a time of 0 both give a day. */
  function ExpiresIn(time: Option<int>): (seconds: int)
    ensures time.Some? && time.value != 0 ==> seconds == time.value
    ensures time.None? || time.value == 0 ==> seconds == DefaultExpiry
  {
    if time.Some? && time.value != 0 then time.value else DefaultExpiry
  }

  class AuthService {
    const users: UsersService
    /** `bcrypt.hash(password, salt)` */
    const hash: (string, string) -> string
    /** `bcrypt.compare(password, hashed)` */
    const compare: (string, string) -> bool
    /** `jwtService.sign(payload, { expiresIn })` with the configured secret */
    const sign: (JwtPayload, int) -> string

    constructor (users: UsersService, hash: (string, string) -> string,
                 compare: (string, string) -> bool, sign: (JwtPayload, int) -> string)
      ensures this.users == users && this.hash == hash
      ensures this.compare == compare && this.sign == sign
    {
      this.users := users;
      this.hash := hash;
      this.compare := compare;
      this.sign := sign;
    }

    /**
     * `createJwt(payload, time)`: the payload signed to expire after `time`
     * seconds; without a time, or with time 0, after a day.
     */
    function CreateJwt(payload: JwtPayload, time: Option<int>): (token: string)
      ensures time.Some? && time.value != 0 ==> token == sign(payload, time.value)
      ensures time.None? || time.value == 0 ==> token == sign(payload, 86400)
    {
      sign(payload, ExpiresIn(time))
    }

    /**
     * `signup(dto)`: BadRequest('User already exists') and nothing stored when
     * the email is taken; otherwise one new user whose password is
     * `hash(password, salt)`, returned without its password.
     */
    method Signup(dto: SignupDto, salt: string) returns (r: Result<PublicUser>)
      requires users.Valid()
      modifies users.repo
      ensures users.Valid()
      ensures EmailTaken(old(users.repo.rows), dto.email) ==>
        r == Err(BadRequest(UserExists)) && users.repo.rows == old(users.repo.rows)
      ensures !EmailTaken(old(users.repo.rows), dto.email) ==>
        && r.Ok? && r.value.id !in old(users.repo.rows)
        && users.repo.rows == old(users.repo.rows)[r.value.id :=
             User(dto.name, dto.email, hash(dto.password, salt), dto.userType)]
        && r.value == WithoutPassword(Row(r.value.id, users.repo.rows[r.value.id]))
      ensures UniqueEmails(old(users.repo.rows)) ==> UniqueEmails(users.repo.rows)
    {
      var existing := users.FindOne((k, u: User) => u.email == dto.email);
      if existing.Some? {
        return Err(BadRequest(UserExists));
      }
      var newUser := users.Create(User(dto.name, dto.email, dto.password, dto.userType));
      newUser := newUser.(password := hash(dto.password, salt));
      var saved := users.SaveOne(None, newUser);
      r := Ok(WithoutPassword(saved));
    }

    /**
     * `validateUser(email, password)`: an unknown email and a wrong password
     * fail with the very same Unauthorized('Invalid credentials'). On success
     * the user (without password) and a token over `{ id, userType }` with the
     * default expiry.
     */
    method ValidateUser(email: string, password: string) returns (r: Result<Login>)
      requires users.Valid()
      ensures r.Err? ==> r.error == Unauthorized(InvalidCredentials)
      ensures !EmailTaken(users.repo.rows, email) ==> r.Err?
      ensures r.Ok? ==>
        exists id ::
          && id in users.repo.rows
          && users.repo.rows[id].email == email && compare(password, users.repo.rows[id].password)
          && r.value.user == WithoutPassword(Row(id, users.repo.rows[id]))
          && r.value.token == sign(JwtPayload(id, users.repo.rows[id].userType), DefaultExpiry)
      ensures UniqueEmails(users.repo.rows) ==>
        (r.Ok? <==>
          exists id ::
            && id in users.repo.rows
            && users.repo.rows[id].email == email && compare(password, users.repo.rows[id].password))
    {
      var found := users.FindOne((k, u: User) => u.email == email);
      if found.None? {
        return Err(Unauthorized(InvalidCredentials));
      }
      var user := found.value;
      if !compare(password, user.entity.password) {
        if UniqueEmails(users.repo.rows) {
          forall id | id in users.repo.rows && users.repo.rows[id].email == email
            ensures !compare(password, users.repo.rows[id].password)
          {
            assert id == user.id;
          }
        }
        return Err(Unauthorized(InvalidCredentials));
      }
      var token := CreateJwt(JwtPayload(user.id, user.entity.userType), None);
      r := Ok(Login(WithoutPassword(user), token));
    }

    /** `update(id, dto)`: NotFound('User not found') for an unknown id, else UsersService.Update. */
    method Update(id: int, patch: UserPatch) returns (r: Result<Row<User>>)
      requires users.Valid()
      modifies users.repo
      ensures users.Valid()
      ensures id !in old(users.repo.rows) ==>
        r == Err(NotFound(UserNotFound)) && users.repo.rows == old(users.repo.rows)
      ensures id in old(users.repo.rows) ==>
        && r == Ok(Row(id, AssignUser(old(users.repo.rows)[id], patch)))
        && users.repo.rows == old(users.repo.rows)[id := r.value.entity]
      ensures UniqueEmails(old(users.repo.rows)) && r.Ok? ==>
        (UniqueEmails(users.repo.rows) <==> patch.email.None? || !EmailTaken(old(users.repo.rows) - {id}, patch.email.value))
    {
      var existing := users.FindOne((k, u) => k == id);
      if existing.None? {
        return Err(NotFound(UserNotFound));
      }
      r := users.Update(id, patch);
    }
  }
}
