/** The optional value the models use wherever the Rust code would panic
    (an `unwrap`, an `expect`, an out-of-bounds index or slice). */
module Options {
  datatype Option<+T> = None | Some(value: T)
}
