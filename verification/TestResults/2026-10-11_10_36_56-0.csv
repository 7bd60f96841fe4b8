TestResult.DisplayName,TestResult.Outcome,TestResult.Duration,TestResult.ResourceCount,RandomSeed
FrontendTypes.TypeScope.RedirectMerged (correctness),Passed,00:00:00.7865640,1353175,0
FrontendTypes.TypeScope.RedirectMerged (well-formedness),Passed,00:00:00.3126049,177289,0
