/** What the models of the cluster managers share. */
module Managers {

  /** A manager is known by the address that it writes to etcd. */
  type Address = nat

  datatype Option<T> = None | Some(value: T)
}
