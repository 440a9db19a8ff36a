/** The user entity the services read and write. Only the fields the services touch are
    modelled; the password field holds the encoded (hashed) password. */
module Users {
  type UserId = nat

  datatype User = User(
    id: UserId,
    username: string,
    email: string,
    password: string,
    firstName: string,
    lastName: string)

  /** The fields a caller hands to createUser and updateUser. An empty password stands for
      "no new password" (null or empty: the update treats the two alike). */
  datatype UserDetails = UserDetails(
    username: string,
    email: string,
    password: string,
    firstName: string,
    lastName: string)
}
