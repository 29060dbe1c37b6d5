/** The material-requirement records carried from the annotation text to the diagram. */
module Materials {
  import opened Wrappers

  /** One required material. The quantity is any JSON/YAML number, kept as a real; the optional
      fields are absent when the annotation omits them. */
  datatype MaterialRequirement = MaterialRequirement(
    materialType: string,
    materialId: Option<string>,
    materialName: string,
    requiredQuantity: real,
    unitOfMeasurement: Option<string>)

  /** The document an annotation's text decodes to: a list of requirements. */
  datatype MaterialRequirements = MaterialRequirements(materialRequirements: seq<MaterialRequirement>)

  /** The requirements attached to one task. */
  datatype TaskMaterialRequirements = TaskMaterialRequirements(taskId: string, requirements: seq<MaterialRequirement>)
}
