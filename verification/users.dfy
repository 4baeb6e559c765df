/** The account snapshot shared by the session store and the profile page. */
module Users {
  import opened Wrappers

  /** A user record as the backend returns it: every field is an optional
      string (`firstName`, `lastName`, `email`, `phone`, and any further
      profile attribute such as `gender`, `dob` or `city`). A field that is
      absent is a key that is not in the map. */
  datatype User = User(fields: map<string, string>) {

    /** `user.name`, which is `undefined` when the field is absent. */
    function Field(name: string): Option<string> {
      if name in fields then Some(fields[name]) else None
    }
  }
}
