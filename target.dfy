/** The build target, which the source reads with `cfg!(target_os = "windows")`. */
module Target {

  /** `Unix` stands for every target other than Windows. */
  datatype Platform = Windows | Unix
}
