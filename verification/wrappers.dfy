/** The "not found" sentinel of the platform: a null `shared_ptr`, a null
    `Item*` or an absent index is modelled as `None`. */
module Wrappers {

  datatype Option<+T> = None | Some(value: T)

}
