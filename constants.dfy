/** The values of src/mri_acronyms/util/constants.py, and `PUNCTUATION`, Python's `string.punctuation` from the standard library. */
module Constants {

  /** Separator between the acronyms of one vendor in a report cell. */
  const SEP: string := "; "

  /** Punctuation that `sanitize` keeps. */
  const VALID_SYMBOLS: string := ".-|/*"

  /** Column headers of the report. */
  const HEADERS: seq<string> := [
    "Group",
    "Category",
    "Sequence | Parameter",
    "Siemens",
    "General Electric",
    "Philips",
    "Canon",
    "Hitachi"
  ]

  const VALID_ACQUISITION_MODES: seq<string> := [
    "2d_slices",
    "3d_slabs",
    "3d_volume",
    "4d_dynamic",
    "voxel"
  ]

  /** Predominant image weighting: abbreviation to description. */
  const VALID_IMAGE_WEIGHTINGS: map<string, string> := map[
    "T1" := "t1_weighted",
    "T2" := "t2_weighted",
    "T2*" := "t2_star_weighted",
    "PD" := "proton_density",
    "T2/T1" := "t2_to_t1_ratio",
    "ANY" := "variable",
    "FSI" := "flow_sensitive",
    "DWI" := "diffusion_weighted",
    "PWI" := "perfusion_weighted",
    "SWI" := "susceptibility_weighted",
    "MRS" := "spectroscopy"
  ]

  /** High-level pulse sequence groupings: classification to abbreviation. */
  const VALID_SEQUENCE_CLASSIFICATIONS: map<string, string> := map[
    "spin_echo" := "tse",
    "gradient_echo" := "gre",
    "inversion_recovery" := "ir",
    "single_shot" := "ss",
    "steady_state" := "ssfp",
    "echo_planar" := "epi",
    "diffusion" := "dwi",
    "perfusion" := "pwi",
    "phase_contrast" := "pc",
    "susceptibility" := "swi",
    "functional" := "fmri",
    "spectroscopy" := "spect"
  ]

  /** Python's `string.punctuation`: the 32 ASCII punctuation characters in code order. */
  const PUNCTUATION: string := "!\"#$%&'()*+,-./:;<=>?@[\\]^_`{|}~"
}
