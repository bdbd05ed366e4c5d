/** backend/app/auth/models.py: the user record. */
module UserModel {
  import opened PyValues

  /** A user; new records are active and not administrators unless told otherwise. */
  datatype User = User(id: int, username: string, hashedPassword: string,
                       isActive: bool := true, isAdmin: bool := false)

  /** `User.to_dict`: the public view, used for JSON responses. */
  function ToDict(u: User): (d: Dict)
    ensures d.Keys == {"id", "username", "is_active", "is_admin"}
    ensures "hashed_password" !in d
    ensures d["id"] == VInt(u.id) && d["username"] == VStr(u.username)
    ensures d["is_active"] == VBool(u.isActive) && d["is_admin"] == VBool(u.isAdmin)
  {
    map["id" := VInt(u.id), "username" := VStr(u.username),
        "is_active" := VBool(u.isActive), "is_admin" := VBool(u.isAdmin)]
  }

  /** Two users have the same public view exactly when they differ at most in their
      password hash: `to_dict` keeps every field but the hash. */
  lemma ToDictForgetsOnlyPassword(u: User, v: User)
    ensures ToDict(u) == ToDict(v) <==> u.(hashedPassword := v.hashedPassword) == v
  {
    if ToDict(u) == ToDict(v) {
      assert ToDict(u)["id"] == ToDict(v)["id"];
      assert ToDict(u)["username"] == ToDict(v)["username"];
      assert ToDict(u)["is_active"] == ToDict(v)["is_active"];
      assert ToDict(u)["is_admin"] == ToDict(v)["is_admin"];
    }
  }

  /** The dataclass defaults. */
  lemma NewUserDefaults(id: int, username: string, hashedPassword: string)
    ensures User(id, username, hashedPassword).isActive
    ensures !User(id, username, hashedPassword).isAdmin
  {
  }
}
