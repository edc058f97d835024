/** `Authentication` of the `netway` crate (crates/netway/src/auth.rs): no credentials, or a username and password. */
module NetwayAuth {
  import opened Text

  datatype Authentication = NoAuth | Password(username: Bytes, password: Bytes)
}
