/** The optional-value datatype shared by the models: `None` stands for the
    `null` (PHP) or `null`/`undefined` (JavaScript) results of the scripts. */
module Wrappers {

  datatype Option<+T> = None | Some(value: T)

}
