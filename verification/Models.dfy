// The record that flows through the benchmark corpus (models.py).
module Models {
  datatype Clause = Clause(
    clauseId: string,
    sourceDocumentId: string,
    clauseType: string,
    clauseText: string,
    contractType: string,
    industry: string,
    counterpartyType: string,
    qualityScore: real)
}
